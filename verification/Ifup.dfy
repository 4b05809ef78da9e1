// The generated ifup script and its network arithmetic.
module Ifup {
  import opened Numbers
  import opened Scanf
  import opened Printf
  import opened Stdio
  import opened Config
  import opened ConfigLines
  import opened ConfigParse
  import opened ConfigLens

  // ---- Bitwise operations on n-bit words -------------------------------------------------

  function BitAnd(a: nat, b: nat, n: nat): nat {
    if n == 0 then 0 else 2 * BitAnd(a / 2, b / 2, n - 1) + if a % 2 == 1 && b % 2 == 1 then 1 else 0
  }

  function BitOr(a: nat, b: nat, n: nat): nat {
    if n == 0 then 0 else 2 * BitOr(a / 2, b / 2, n - 1) + if a % 2 == 1 || b % 2 == 1 then 1 else 0
  }

  function BitNot(a: nat): nat
    requires a < UINT_LIMIT
  {
    0xFFFF_FFFF - a
  }

  function Pow2(n: nat): (p: nat)
    ensures p > 0
  {
    if n == 0 then 1 else 2 * Pow2(n - 1)
  }

  lemma Pow2Least(j: nat, n: nat)
    requires j <= n
    ensures Pow2(j) <= Pow2(n)
  {
  }

  lemma {:induction false} AndOnes(a: nat, n: nat)
    requires a < Pow2(n)
    ensures BitAnd(a, Pow2(n) - 1, n) == a
  {
    if n > 0 {
      assert (Pow2(n) - 1) / 2 == Pow2(n - 1) - 1 && (Pow2(n) - 1) % 2 == 1;
      AndOnes(a / 2, n - 1);
    }
  }

  // A contiguous mask keeps the block number and clears the position in the block.
  lemma {:induction false} AndMask(q: nat, r: nat, j: nat, n: nat)
    requires j <= n && r < Pow2(j) && q * Pow2(j) + r < Pow2(n)
    ensures Pow2(j) <= Pow2(n) && BitAnd(q * Pow2(j) + r, Pow2(n) - Pow2(j), n) == q * Pow2(j)
  {
    Pow2Least(j, n);
    if j == 0 {
      AndOnes(q, n);
    } else {
      Halved(q, r, j, n);
      AndMask(q, r / 2, j - 1, n - 1);
      Double(q, Pow2(j - 1));
    }
  }

  lemma Halved(q: nat, r: nat, j: nat, n: nat)
    requires 0 < j <= n && r < Pow2(j) && q * Pow2(j) + r < Pow2(n) && Pow2(j) <= Pow2(n)
    ensures Pow2(j - 1) <= Pow2(n - 1) && r / 2 < Pow2(j - 1) && q * Pow2(j - 1) + r / 2 < Pow2(n - 1)
    ensures var a, m := q * Pow2(j) + r, Pow2(n) - Pow2(j);
            a / 2 == q * Pow2(j - 1) + r / 2 && m / 2 == Pow2(n - 1) - Pow2(j - 1) && m % 2 == 0
  {
    Double(q, Pow2(j - 1));
    assert q * Pow2(j) + r == 2 * (q * Pow2(j - 1) + r / 2) + r % 2;
  }

  lemma Double(q: nat, p: nat)
    ensures q * (2 * p) == 2 * (q * p)
  {
  }

  lemma {:induction false} OrNothing(a: nat, n: nat)
    requires a < Pow2(n)
    ensures BitOr(a, 0, n) == a
  {
    if n > 0 { OrNothing(a / 2, n - 1); }
  }

  // Setting every bit below the block gives its last position.
  lemma {:induction false} OrLow(q: nat, j: nat, n: nat)
    requires j <= n && q * Pow2(j) < Pow2(n)
    ensures BitOr(q * Pow2(j), Pow2(j) - 1, n) == q * Pow2(j) + (Pow2(j) - 1)
  {
    if j == 0 {
      OrNothing(q, n);
    } else {
      var a, low := q * Pow2(j), Pow2(j) - 1;
      Double(q, Pow2(j - 1));
      assert a / 2 == q * Pow2(j - 1) && a % 2 == 0;
      assert low / 2 == Pow2(j - 1) - 1 && low % 2 == 1;
      OrLow(q, j - 1, n - 1);
    }
  }

  function Network(c: Node): nat
    requires Typed(c)
  {
    BitAnd(c.ip, c.netmask, 32)
  }

  function Broadcast(c: Node): nat
    requires Typed(c)
  {
    BitOr(BitAnd(c.ip, c.netmask, 32), BitAnd(BitNot(c.netmask), 0xFFFF_FFFF, 32), 32)
  }

  lemma WordIs()
    ensures Pow2(32) == UINT_LIMIT
  {
    assert Pow2(8) == 256;
    assert Pow2(16) == 65536;
    assert Pow2(24) == 16777216;
  }

  // With a mask of prefix length k, the printed network and broadcast addresses
  // parse back to the bottom and the top of the 2^(32-k) block that contains the address.
  lemma NetworkBlock(c: Node, k: nat, q: nat, r: nat)
    requires Typed(c) && k <= 32 && c.netmask == UINT_LIMIT - Pow2(32 - k)
    requires c.ip == q * Pow2(32 - k) + r && r < Pow2(32 - k)
    ensures ParseIp(PrintIp(Network(c))) == Network(c) == q * Pow2(32 - k)
    ensures ParseIp(PrintIp(Broadcast(c))) == Broadcast(c) == q * Pow2(32 - k) + (Pow2(32 - k) - 1)
    ensures Network(c) <= c.ip <= Broadcast(c)
  {
    hide PrintIp, ParseIp, BitAnd, BitOr;
    var j := 32 - k;
    WordIs();
    Pow2Least(j, 32);
    AndMask(q, r, j, 32);
    AndOnes(Pow2(j) - 1, 32);
    assert BitNot(c.netmask) == Pow2(j) - 1;
    OrLow(q, j, 32);
    TopFits(q, j);
    ParsePrintedIp(Network(c));
    ParsePrintedIp(Broadcast(c));
  }

  // The block that holds an address below 2^32 ends below 2^32.
  lemma TopFits(q: nat, j: nat)
    requires j <= 32
    ensures q * Pow2(j) < Pow2(32) ==> q * Pow2(j) + Pow2(j) <= Pow2(32)
  {
    hide Pow2;
    BlockCount(j, 32);
    if q * Pow2(j) < Pow2(32) {
      Fewer(q, Pow2(32 - j), Pow2(j));
      MulLeast(q + 1, Pow2(32 - j), Pow2(j));
    }
  }

  lemma MulLeast(a: nat, b: nat, p: nat)
    requires 0 < a <= b
    ensures (a - 1) * p + p <= b * p
  {
    AtLeast(b, a, p);
    assert (a - 1) * p + p == a * p;
  }

  lemma {:induction false} BlockCount(j: nat, n: nat)
    requires j <= n
    ensures Pow2(n) == Pow2(n - j) * Pow2(j)
  {
    if j > 0 {
      BlockCount(j - 1, n - 1);
      Double(Pow2(n - j), Pow2(j - 1));
    }
  }

  // ---- The script --------------------------------------------------------------------------

  function IfconfigLine(ip: nat, mask: nat, bcast: nat): string {
    "/sbin/ifconfig eth0 " + PrintIp(ip) + " netmask " + PrintIp(mask) + " broadcast " + PrintIp(bcast) + " up\n"
  }

  function RouteLine(net: nat, mask: nat): string {
    "/sbin/route add -net " + PrintIp(net) + " netmask " + PrintIp(mask) + " eth0\n"
  }

  function DefaultLine(gateway: nat): string {
    "/sbin/route add default gw " + PrintIp(gateway) + "\n"
  }

  function StaticText(c: Node): string
    requires Typed(c)
  {
    IfconfigLine(c.ip, c.netmask, Broadcast(c)) + RouteLine(Network(c), c.netmask)
    + if c.gateway != 0 then DefaultLine(c.gateway) else ""
  }

  function Header(): string { "#!/bin/sh\n" }
  function Down(): string { "/sbin/ifconfig eth0 down\n" }
  function Pump(): string { "/sbin/pump -i eth0\n" }
  function PumpOr(): string { "/sbin/pump -i eth0 || {\n" }
  function Close(): string { "}\n" }

  // fprintf formats into 512 bytes and writes past the FILE's buffer.
  method Fprintf(f: MiniFile, fmt: string, args: seq<Arg>) returns (n: nat)
    requires f.Valid() && f.mode == 'w' && Matches(fmt, args)
    modifies f.disk`content
    ensures f.Valid() && n == |Format(fmt, args)|
    ensures f.disk.content == old(f.disk.content) + Truncate(Format(fmt, args), 511)
  {
    hide Format, Matches;
    var buf := new char[512];
    n := Vsnprintf(buf, 512, fmt, args);
    if n > 0 { f.Write(buf[..if n < 512 then n else 511]); }
    assert buf[..if n < 512 then n else 511] == Truncate(Format(fmt, args), 511);
  }

  const IP := "%u.%u.%u.%u"

  // An address in the middle of a format.
  lemma IpThen(ip: nat, sep: string, rest: string, args: seq<Arg>)
    requires '%' !in sep && Matches(rest, args)
    ensures Matches(IP + (sep + rest), IpArgs(ip) + args)
    ensures Format(IP + (sep + rest), IpArgs(ip) + args) == PrintIp(ip) + (sep + Format(rest, args))
  {
    hide Dec, Format, Matches;
    var a, b, c, d := ip / 0x100_0000 % 256, ip / 0x1_0000 % 256, ip / 0x100 % 256, ip % 256;
    var f3, a3 := "%u" + (sep + rest), [Int(d)] + args;
    var f2, a2 := "%u" + ("." + f3), [Int(c)] + a3;
    var f1, a1 := "%u" + ("." + f2), [Int(b)] + a2;
    UnsignedThen(d, sep, rest, args);
    UnsignedThen(c, ".", f3, a3);
    UnsignedThen(b, ".", f2, a2);
    UnsignedThen(a, ".", f1, a1);
    assert "%u" + ("." + f1) == IP + (sep + rest);
    assert [Int(a)] + a1 == IpArgs(ip) + args;
    assert Dec(a) + ("." + (Dec(b) + ("." + (Dec(c) + ("." + (Dec(d) + (sep + Format(rest, args)))))))) == PrintIp(ip) + (sep + Format(rest, args));
  }

  const IFCONFIG := "/sbin/ifconfig eth0 " + (IP + (" netmask " + (IP + (" broadcast " + (IP + (" up\n" + ""))))))
  const ROUTE_NET := "/sbin/route add -net " + (IP + (" netmask " + (IP + (" eth0\n" + ""))))
  const ROUTE_DEFAULT := "/sbin/route add default gw " + (IP + ("\n" + ""))

  lemma IfconfigText(a: nat, b: nat, c: nat)
    ensures var args := IpArgs(a) + (IpArgs(b) + (IpArgs(c) + []));
            && Matches(IFCONFIG, args)
            && Format(IFCONFIG, args) == IfconfigLine(a, b, c)
  {
    hide Format, Matches, PrintIp, IpArgs;
    EmptyFormat();
    var f3 := IP + (" up\n" + "");
    var f2 := IP + (" broadcast " + f3);
    var f1 := IP + (" netmask " + f2);
    IpThen(c, " up\n", "", []);
    IpThen(b, " broadcast ", f3, IpArgs(c) + []);
    IpThen(a, " netmask ", f2, IpArgs(b) + (IpArgs(c) + []));
    FormatText("/sbin/ifconfig eth0 ", f1, IpArgs(a) + (IpArgs(b) + (IpArgs(c) + [])));
    assert "/sbin/ifconfig eth0 " + (PrintIp(a) + (" netmask " + (PrintIp(b) + (" broadcast " + (PrintIp(c) + (" up\n" + ""))))))
        == "/sbin/ifconfig eth0 " + PrintIp(a) + " netmask " + PrintIp(b) + " broadcast " + PrintIp(c) + " up\n";
  }

  lemma RouteNetText(a: nat, b: nat)
    ensures var args := IpArgs(a) + (IpArgs(b) + []);
            && Matches(ROUTE_NET, args)
            && Format(ROUTE_NET, args) == RouteLine(a, b)
  {
    hide Format, Matches, PrintIp, IpArgs;
    EmptyFormat();
    var f2 := IP + (" eth0\n" + "");
    var f1 := IP + (" netmask " + f2);
    IpThen(b, " eth0\n", "", []);
    IpThen(a, " netmask ", f2, IpArgs(b) + []);
    FormatText("/sbin/route add -net ", f1, IpArgs(a) + (IpArgs(b) + []));
    assert "/sbin/route add -net " + (PrintIp(a) + (" netmask " + (PrintIp(b) + (" eth0\n" + ""))))
        == "/sbin/route add -net " + PrintIp(a) + " netmask " + PrintIp(b) + " eth0\n";
  }

  lemma RouteDefaultText(a: nat)
    ensures Matches(ROUTE_DEFAULT, IpArgs(a) + [])
    ensures Format(ROUTE_DEFAULT, IpArgs(a) + []) == DefaultLine(a)
  {
    hide Format, Matches, PrintIp, IpArgs;
    EmptyFormat();
    var f1 := IP + ("\n" + "");
    IpThen(a, "\n", "", []);
    FormatText("/sbin/route add default gw ", f1, IpArgs(a) + []);
    assert "/sbin/route add default gw " + (PrintIp(a) + ("\n" + "")) == "/sbin/route add default gw " + PrintIp(a) + "\n";
  }

  // Addresses are at most 15 characters, so no line reaches fprintf's 511.
  lemma LinesFit(a: nat, b: nat, c: nat)
    ensures |IfconfigLine(a, b, c)| <= 511 && |RouteLine(a, b)| <= 511 && |DefaultLine(a)| <= 511
  {
    hide PrintIp;
    IpShort(a);
    IpShort(b);
    IpShort(c);
  }

  method PrintLine(f: MiniFile, fmt: string, args: seq<Arg>)
    requires f.Valid() && f.mode == 'w' && Matches(fmt, args) && |Format(fmt, args)| <= 511
    modifies f.disk`content
    ensures f.Valid() && f.disk.content == old(f.disk.content) + Format(fmt, args)
  {
    var _ := Fprintf(f, fmt, args);
  }

  method IfupStatic(f: MiniFile, c: Node)
    requires f.Valid() && f.mode == 'w' && Typed(c)
    modifies f.disk`content
    ensures f.Valid() && f.disk.content == old(f.disk.content) + StaticText(c)
  {
    hide Format, Matches, IpArgs, BitAnd, BitOr, IfconfigLine, RouteLine, DefaultLine;
    var net := BitAnd(c.ip, c.netmask, 32);
    var bcast := BitOr(net, BitAnd(BitNot(c.netmask), 0xFFFF_FFFF, 32), 32);
    LinesFit(c.ip, c.netmask, bcast);
    LinesFit(net, c.netmask, 0);
    LinesFit(c.gateway, 0, 0);
    IfconfigText(c.ip, c.netmask, bcast);
    PrintLine(f, IFCONFIG, IpArgs(c.ip) + (IpArgs(c.netmask) + (IpArgs(bcast) + [])));
    RouteNetText(net, c.netmask);
    PrintLine(f, ROUTE_NET, IpArgs(net) + (IpArgs(c.netmask) + []));
    if c.gateway != 0 {
      RouteDefaultText(c.gateway);
      PrintLine(f, ROUTE_DEFAULT, IpArgs(c.gateway) + []);
    }
  }

  method PrintText(f: MiniFile, text: string)
    requires f.Valid() && f.mode == 'w' && '%' !in text && |text| <= 511
    modifies f.disk`content
    ensures f.Valid() && f.disk.content == old(f.disk.content) + text
  {
    LineOfNothing(text);
    PrintLine(f, text, []);
  }

  // The commands of the address mode.
  function ModeText(c: Node): string
    requires Typed(c)
  {
    if c.addrMode == ADDR_MODE_DHCP then Pump()
    else if c.addrMode == ADDR_MODE_DHCP_STATIC then PumpOr() + StaticText(c) + Close()
    else StaticText(c)
  }

  method IfupMode(f: MiniFile, c: Node)
    requires f.Valid() && f.mode == 'w' && Typed(c)
    modifies f.disk`content
    ensures f.Valid() && f.disk.content == old(f.disk.content) + ModeText(c)
  {
    FixedLines();
    hide StaticText, Pump, PumpOr, Close;
    if c.addrMode == ADDR_MODE_DHCP {
      PrintText(f, Pump());
    } else if c.addrMode == ADDR_MODE_DHCP_STATIC {
      PrintText(f, PumpOr());
      IfupStatic(f, c);
      PrintText(f, Close());
      Regroup4(old(f.disk.content), PumpOr(), StaticText(c), Close());
    } else {
      IfupStatic(f, c);
    }
  }

  lemma Regroup4(a: string, b: string, c: string, d: string)
    ensures a + b + c + d == a + (b + c + d)
  {
  }

  method GenerateIfup(disk: DiskFile, c: Node) returns (rc: int)
    requires Typed(c)
    modifies disk`present, disk`content
    ensures rc == if disk.writable then 0 else -1
    ensures if rc == 0 then disk.present && disk.content == Header() + Down() + ModeText(c)
            else disk.present == old(disk.present) && disk.content == old(disk.content)
  {
    FixedLines();
    hide ModeText, Header, Down;
    var f := Fopen(disk, 'w');
    if f == null { return -1; }
    PrintText(f, Header());
    PrintText(f, Down());
    assert disk.content == Header() + Down();
    IfupMode(f, c);
    var _ := f.Fclose();
    return 0;
  }

  // The commands that set a static address, for a mask of prefix length k: the broadcast
  // address is the top of the block, the route goes to its bottom.
  function StaticCommands(c: Node, bottom: nat, top: nat): string {
    "/sbin/ifconfig eth0 " + PrintIp(c.ip) + " netmask " + PrintIp(c.netmask) + " broadcast " + PrintIp(top) + " up\n"
    + ("/sbin/route add -net " + PrintIp(bottom) + " netmask " + PrintIp(c.netmask) + " eth0\n")
    + if c.gateway == 0 then "" else "/sbin/route add default gw " + PrintIp(c.gateway) + "\n"
  }

  // The whole script: DHCP asks a server, DHCP with fallback sets the address when that
  // fails, any other mode sets it at once.
  function ScriptText(c: Node, bottom: nat, top: nat): string {
    "#!/bin/sh\n/sbin/ifconfig eth0 down\n"
    + if c.addrMode == 1 then "/sbin/pump -i eth0\n"
      else if c.addrMode == 2 then "/sbin/pump -i eth0 || {\n" + StaticCommands(c, bottom, top) + "}\n"
      else StaticCommands(c, bottom, top)
  }

  lemma Script(c: Node, k: nat, q: nat, r: nat)
    requires Typed(c) && k <= 32 && c.netmask == UINT_LIMIT - Pow2(32 - k)
    requires c.ip == q * Pow2(32 - k) + r && r < Pow2(32 - k)
    ensures Header() + Down() + ModeText(c) == ScriptText(c, q * Pow2(32 - k), q * Pow2(32 - k) + (Pow2(32 - k) - 1))
  {
    hide *;
    NetworkBlock(c, k, q, r);
    ScriptIs(c, q * Pow2(32 - k), q * Pow2(32 - k) + (Pow2(32 - k) - 1));
  }

  lemma ScriptIs(c: Node, bottom: nat, top: nat)
    requires Typed(c) && Network(c) == bottom && Broadcast(c) == top
    ensures Header() + Down() + ModeText(c) == ScriptText(c, bottom, top)
  {
    hide StaticText, StaticCommands, Header, Down, Pump, PumpOr, Close;
    HeaderIs();
    PumpIs();
    StaticIs(c, bottom, top);
  }

  lemma HeaderIs()
    ensures Header() + Down() == "#!/bin/sh\n/sbin/ifconfig eth0 down\n"
  {
  }

  lemma PumpIs()
    ensures Pump() == "/sbin/pump -i eth0\n" && PumpOr() == "/sbin/pump -i eth0 || {\n" && Close() == "}\n"
  {
  }

  lemma StaticIs(c: Node, bottom: nat, top: nat)
    requires Typed(c) && Network(c) == bottom && Broadcast(c) == top
    ensures StaticText(c) == StaticCommands(c, bottom, top)
  {
    hide PrintIp, Network, Broadcast;
  }

  lemma FixedLines()
    ensures '%' !in Header() && '%' !in Down() && '%' !in Pump() && '%' !in PumpOr() && '%' !in Close()
    ensures |Header()| <= 511 && |Down()| <= 511 && |Pump()| <= 511 && |PumpOr()| <= 511 && |Close()| <= 511
  {
  }
}
