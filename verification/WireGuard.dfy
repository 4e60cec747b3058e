/** WireGuard configurations: reading one into a profile, printing a profile, and why what was
    printed reads back to what prints the same. */
module WireGuard {
  import opened ConfigText
  import opened Decimals
  import opened Ipv4
  import opened Options
  import opened Texts

  type V6 = seq<nat>

  // The system's conversion of IPv6 addresses from and to text.
  datatype Inet6 = Inet6(parse: string -> Option<V6>, format: V6 -> string)

  predicate IsPlain6(text: string) {
    IsWord(text) && '/' !in text && ':' in text
  }

  // The two undo one another on addresses, whose text has colons and nothing that separates.
  ghost predicate Faithful(inet: Inet6) {
    forall text :: inet.parse(text).Some? ==> IsAddress6(inet, inet.parse(text).value)
  }

  predicate IsAddress6(inet: Inet6, address: V6) {
    inet.parse(inet.format(address)) == Some(address) && IsPlain6(inet.format(address))
  }

  // ----- Profiles -----

  datatype Network<A> = Network(address: A, prefix: nat)

  datatype Peer = Peer(publicKey: Option<string>, presharedKey: Option<string>, endpoint: Option<string>,
                       allowed: seq<string>, keepalive: nat)

  const NEW_PEER := Peer(None, None, None, [], 0)

  // One address family of a profile; servers and search domains only beside an address.
  datatype Family<A> = Family(networks: seq<Network<A>>, dns: seq<A>, search: seq<string>)

  datatype Profile = Profile(privateKey: string, listenPort: nat, fwmark: nat, mtu: nat, peerRoutes: bool,
                             v4: Family<nat>, v6: Family<V6>, peers: seq<Peer>)

  datatype Section = Nowhere | Interface | InPeer

  // What was read so far.
  datatype Draft = Draft(section: Section, privateKey: string, listenPort: nat, fwmark: nat, mtu: nat, peerRoutes: bool,
                         networks4: seq<Network<nat>>, networks6: seq<Network<V6>>,
                         dns4: seq<nat>, dns6: seq<V6>, search: seq<string>, peers: seq<Peer>)

  const START := Draft(Nowhere, "", 0, 0, 0, true, [], [], [], [], [], [])

  // ----- Fields -----

  datatype Key = PrivateKey | Address | Dns | Mtu | ListenPort | FwMark | Table | Script
               | PublicKey | PresharedKey | Endpoint | AllowedIps | Keepalive | Unknown

  predicate Same(a: string, b: string) {
    |a| == |b| && forall k :: 0 <= k < |a| ==> Lower(a[k]) == Lower(b[k])
  }

  function KeyOf(field: string): Key {
    if Same(field, "PrivateKey") then PrivateKey
    else if Same(field, "Address") then Address
    else if Same(field, "DNS") then Dns
    else if Same(field, "MTU") then Mtu
    else if Same(field, "ListenPort") then ListenPort
    else if Same(field, "FwMark") then FwMark
    else if Same(field, "Table") then Table
    else if Same(field, "PreUp") || Same(field, "PreDown") || Same(field, "PostUp") || Same(field, "PostDown")
            || Same(field, "SaveConfig") then Script
    else if Same(field, "PublicKey") then PublicKey
    else if Same(field, "PresharedKey") then PresharedKey
    else if Same(field, "Endpoint") then Endpoint
    else if Same(field, "AllowedIPs") then AllowedIps
    else if Same(field, "PersistentKeepalive") then Keepalive
    else Unknown
  }

  function Alphabet(): string {
    "ABCDEFGHIJKLMNOPQRSTUVWXYZ" + "abcdefghijklmnopqrstuvwxyz" + "0123456789+/"
  }

  // Text in base 64 without its padding, of which there is little.
  function Unpadded(text: string): (data: string)
    ensures |data| <= |text|
  {
    if text != "" && text[|text| - 1] == '=' then Unpadded(text[..|text| - 1]) else text
  }

  predicate InAlphabet(data: string) {
    forall k :: 0 <= k < |data| ==> data[k] in Alphabet()
  }

  // How many bytes the text decodes to; none when it is no base 64.
  function DecodedSize(text: string): Option<nat> {
    var data := Unpadded(text);
    if |text| - |data| > 2 || |data| % 4 == 1 || !InAlphabet(data) then None else Some(|data| * 6 / 8)
  }

  predicate IsKey(text: string) {
    DecodedSize(text) == Some(32)
  }

  const MAX_UINT := 0xFFFF_FFFF

  function HexValue(c: char): Option<nat> {
    if IsDigit(c) then Some(DigitValue(c))
    else if 'a' <= Lower(c) <= 'f' then Some(Lower(c) as int - 'a' as int + 10)
    else None
  }

  // Digits of a base, all of the text.
  function InBase(text: string, base: nat): Option<nat> {
    if text == "" then Some(0)
    else
      var n := |text| - 1;
      match (InBase(text[..n], base), HexValue(text[n]))
      case (Some(high), Some(d)) => if d < base then Some(high * base + d) else None
      case _ => None
  }

  // A number of 32 bits without a sign; with any base, "0x" starts hexadecimal and "0" octal digits.
  function ParseUInt(text: string, anyBase: bool): Option<nat> {
    var number :=
      if text == "" then None
      else if anyBase && |text| > 2 && text[0] == '0' && Lower(text[1]) == 'x' then InBase(text[2..], 16)
      else if anyBase && text[0] == '0' then InBase(text, 8)
      else InBase(text, 10);
    if number.Some? && number.value <= MAX_UINT then number else None
  }

  // A number written in a base.
  function TextIn(n: nat, base: nat): string
    requires 2 <= base <= 16
  {
    if n < base then ["0123456789abcdef"[n]] else TextIn(n / base, base) + ["0123456789abcdef"[n % base]]
  }

  lemma HexDigit(d: nat)
    requires d < 16
    ensures HexValue("0123456789abcdef"[d]) == Some(d)
  {
  }

  lemma Divided(n: nat, base: nat)
    requires base >= 2
    ensures n / base * base + n % base == n && n % base < base
    ensures n >= base ==> 0 < n / base < n
  {
  }

  lemma InBaseMore(text: string, d: nat, base: nat)
    requires 2 <= base <= 16 && d < base && InBase(text, base).Some?
    ensures InBase(text + ["0123456789abcdef"[d]], base) == Some(InBase(text, base).value * base + d)
  {
    hide HexValue;
    HexDigit(d);
    var more := text + ["0123456789abcdef"[d]];
    assert more[..|more| - 1] == text;
  }

  lemma {:induction false} InBaseOfText(n: nat, base: nat)
    requires 2 <= base <= 16
    ensures InBase(TextIn(n, base), base) == Some(n)
    decreases n
  {
    hide InBase;
    if n < base {
      assert InBase("", base) == Some(0) by {
        EmptyInBase(base);
      }
      InBaseMore("", n, base);
      assert "" + ["0123456789abcdef"[n]] == TextIn(n, base);
    } else {
      Divided(n, base);
      InBaseOfText(n / base, base);
      InBaseMore(TextIn(n / base, base), n % base, base);
    }
  }

  lemma EmptyInBase(base: nat)
    ensures InBase("", base) == Some(0)
  {
  }

  /** A number of 32 bits is read as it is written: in decimal, and where any base is allowed with
      "0x" in hexadecimal and with "0" in octal digits. */
  lemma NumbersAreRead(n: nat, anyBase: bool)
    requires n <= 0xFFFF_FFFF
    ensures n > 0 || !anyBase ==> ParseUInt(TextIn(n, 10), anyBase) == Some(n)
    ensures ParseUInt("0x" + TextIn(n, 16), true) == Some(n) && ParseUInt("0" + TextIn(n, 8), true) == Some(n)
    ensures ParseUInt("0x" + TextIn(n, 16), false) == None
  {
    hide InBase;
    InBaseOfText(n, 8);
    InBaseOfText(n, 10);
    InBaseOfText(n, 16);
    TextStarts(n, 10);
    ZeroFirst(TextIn(n, 8), 8);
    OctalSecond(n);
    NotDecimal(TextIn(n, 16));
    hide TextIn;
    var hex, octal := "0x" + TextIn(n, 16), "0" + TextIn(n, 8);
    assert hex[2..] == TextIn(n, 16);
  }

  // Only zero starts with a zero.
  lemma {:induction false} TextStarts(n: nat, base: nat)
    requires 2 <= base <= 16
    ensures TextIn(n, base) != "" && (TextIn(n, base)[0] == '0' <==> n == 0)
    ensures base <= 10 ==> '0' <= TextIn(n, base)[0] <= '9'
    decreases n
  {
    if n < base {
      DigitStarts(n);
    } else {
      Divided(n, base);
      TextStarts(n / base, base);
      var high := TextIn(n / base, base);
      assert TextIn(n, base) == high + ["0123456789abcdef"[n % base]];
      assert TextIn(n, base)[0] == high[0];
    }
  }

  lemma DigitStarts(d: nat)
    requires d < 16
    ensures "0123456789abcdef"[d] == '0' <==> d == 0
    ensures d < 10 ==> '0' <= "0123456789abcdef"[d] <= '9'
  {
  }

  lemma OctalSecond(n: nat)
    ensures ("0" + TextIn(n, 8))[1] != 'x' && Lower(("0" + TextIn(n, 8))[1]) != 'x'
  {
    TextStarts(n, 8);
    assert ("0" + TextIn(n, 8))[1] == TextIn(n, 8)[0];
  }

  lemma {:induction false} ZeroFirst(text: string, base: nat)
    requires 2 <= base <= 16
    ensures InBase("0" + text, base) == InBase(text, base)
    decreases |text|
  {
    if text == "" {
      HexDigit(0);
      assert "0"[..0] == "";
    } else {
      var n := |text| - 1;
      assert ("0" + text)[..n + 1] == "0" + text[..n];
      ZeroFirst(text[..n], base);
    }
  }

  lemma {:induction false} NotDecimal(text: string)
    ensures InBase("0x" + text, 10) == None
    decreases |text|
  {
    if text == "" {
      assert "0x"[1] == 'x';
    } else {
      assert ("0x" + text)[..|text| + 1] == "0x" + text[..|text| - 1];
      NotDecimal(text[..|text| - 1]);
    }
  }

  // A prefix length, as strtol reads it: a sign is allowed, but nothing below zero.
  function ParsePrefix(text: string, most: nat): Option<nat> {
    var signed := text != "" && (text[0] == '-' || text[0] == '+');
    var digits := if signed then text[1..] else text;
    match InBase(digits, 10)
    case Some(n) => if digits == "" || n > most || (signed && text[0] == '-' && n > 0) then None else Some(n)
    case None => None
  }

  // ----- Addresses and servers -----

  datatype Ip = Ip4(a4: nat) | Ip6(a6: V6) | NoIp

  function IpOf(inet: Inet6, text: string): Ip {
    match ParseIpv4(text)
    case Some(a) => Ip4(a)
    case None => (match inet.parse(text) case Some(a) => Ip6(a) case None => NoIp)
  }

  // The prefix length after a word's slash; all of the address when there is none.
  function PrefixOf(word: string, most: nat): Option<nat> {
    var slash := First(word, '/');
    if slash == |word| then Some(most) else ParsePrefix(word[slash + 1..], most)
  }

  datatype Networks = Networks(v4: seq<Network<nat>>, v6: seq<Network<V6>>)

  function AddNetwork(inet: Inet6, to: Networks, word: string): Option<Networks> {
    match IpOf(inet, word[..First(word, '/')])
    case Ip4(a) =>
      (match PrefixOf(word, 32) case Some(p) => Some(to.(v4 := to.v4 + [Network(a, p)])) case None => None)
    case Ip6(a) =>
      (match PrefixOf(word, 128) case Some(p) => Some(to.(v6 := to.v6 + [Network(a, p)])) case None => None)
    case NoIp => None
  }

  function AddNetworks(inet: Inet6, to: Networks, words: seq<string>): Option<Networks> {
    if words == [] then Some(to)
    else
      match AddNetworks(inet, to, words[..|words| - 1])
      case Some(before) => AddNetwork(inet, before, words[|words| - 1])
      case None => None
  }

  // The IPv4 servers, the IPv6 servers and the search domains among words.
  function Servers4(inet: Inet6, words: seq<string>): seq<nat> {
    if words == [] then []
    else
      var last := IpOf(inet, words[|words| - 1]);
      Servers4(inet, words[..|words| - 1]) + if last.Ip4? then [last.a4] else []
  }

  function Servers6(inet: Inet6, words: seq<string>): seq<V6> {
    if words == [] then []
    else
      var last := IpOf(inet, words[|words| - 1]);
      Servers6(inet, words[..|words| - 1]) + if last.Ip6? then [last.a6] else []
  }

  function Domains(inet: Inet6, words: seq<string>): seq<string> {
    if words == [] then []
    else
      var last := words[|words| - 1];
      Domains(inet, words[..|words| - 1]) + if IpOf(inet, last).NoIp? then [last] else []
  }

  // ----- Reading -----

  function LastPeer(d: Draft): Peer
    requires d.peers != []
  {
    d.peers[|d.peers| - 1]
  }

  function WithPeer(d: Draft, peer: Peer): Draft
    requires d.peers != []
  {
    d.(peers := d.peers[..|d.peers| - 1] + [peer])
  }

  function TakeInterface(inet: Inet6, d: Draft, key: Key, value: string): Option<Draft> {
    match key
    case PrivateKey => if IsKey(value) then Some(d.(privateKey := value)) else None
    case Address =>
      (match AddNetworks(inet, Networks(d.networks4, d.networks6), Words(value))
       case Some(all) => Some(d.(networks4 := all.v4, networks6 := all.v6))
       case None => None)
    case Dns =>
      var words := Words(value);
      Some(d.(dns4 := d.dns4 + Servers4(inet, words), dns6 := d.dns6 + Servers6(inet, words),
        search := d.search + Domains(inet, words)))
    case Mtu =>
      (match ParseUInt(value, false) case Some(n) => Some(d.(mtu := n)) case None => None)
    case ListenPort =>
      (match ParseUInt(value, false) case Some(n) =>
         if n <= 0xFFFF then Some(d.(listenPort := n)) else None case None => None)
    case FwMark =>
      if value == "off" then Some(d.(fwmark := 0))
      else (match ParseUInt(value, true) case Some(n) => Some(d.(fwmark := n)) case None => None)
    case Table => Some(d.(peerRoutes := value != "off"))
    case Script => Some(d)
    case _ => None
  }

  function TakePeer(peer: Peer, key: Key, value: string): Option<Peer> {
    match key
    case PublicKey => if IsKey(value) then Some(peer.(publicKey := Some(value))) else None
    case PresharedKey => if IsKey(value) then Some(peer.(presharedKey := Some(value))) else None
    case Endpoint => if ':' in value then Some(peer.(endpoint := Some(value))) else None
    case AllowedIps => Some(peer.(allowed := peer.allowed + Words(value)))
    case Keepalive =>
      if value == "off" then Some(peer.(keepalive := 0))
      else (match ParseUInt(value, false)
            case Some(n) => if n <= 0xFFFF then Some(peer.(keepalive := n)) else None
            case None => None)
    case _ => None
  }

  // A line's field and value; without an equals sign all of it is the field.
  function FieldOf(line: string): string {
    line[..First(line, '=')]
  }

  function ValueOf(line: string): string {
    if First(line, '=') == |line| then "" else line[First(line, '=') + 1..]
  }

  function TakeField(inet: Inet6, d: Draft, key: Key, value: string): Option<Draft> {
    match d.section
    case Nowhere => None
    case Interface => TakeInterface(inet, d, key, value)
    case InPeer =>
      if d.peers == [] then None
      else (match TakePeer(LastPeer(d), key, value) case Some(peer) => Some(WithPeer(d, peer)) case None => None)
  }

  // One line without comment and whitespace.
  function Take(inet: Inet6, d: Draft, line: string): Option<Draft> {
    if line == "" then Some(d)
    else if Same(line, "[Interface]") then Some(d.(section := Interface))
    else if Same(line, "[Peer]") then Some(d.(section := InPeer, peers := d.peers + [NEW_PEER]))
    else TakeField(inet, d, KeyOf(FieldOf(line)), ValueOf(line))
  }

  // Lines read one after the other.
  function Read(inet: Inet6, from: Draft, lines: seq<string>): Option<Draft> {
    if lines == [] then Some(from)
    else
      match Read(inet, from, lines[..|lines| - 1])
      case Some(d) => Take(inet, d, Stripped(lines[|lines| - 1]))
      case None => None
  }

  predicate Complete(d: Draft) {
    d.privateKey != "" && forall k :: 0 <= k < |d.peers| ==> d.peers[k].publicKey.Some?
  }

  // Where no domain is given, the tilde makes the servers those for all names.
  function SearchOf(search: seq<string>): seq<string> {
    if search == [] then ["~"] else search
  }

  function FamilyOf<A(==)>(networks: seq<Network<A>>, dns: seq<A>, search: seq<string>): Family<A> {
    if networks == [] || dns == [] then Family(networks, [], []) else Family(networks, dns, SearchOf(search))
  }

  function Finish(d: Draft): Profile {
    Profile(d.privateKey, d.listenPort, d.fwmark, d.mtu, d.peerRoutes,
            FamilyOf(d.networks4, d.dns4, d.search), FamilyOf(d.networks6, d.dns6, d.search), d.peers)
  }

  function WireGuardProfile(inet: Inet6, content: string): Option<Profile> {
    match Read(inet, START, Split(content, '\n'))
    case Some(d) => if Complete(d) then Some(Finish(d)) else None
    case None => None
  }

  // ----- Printing -----

  function NetworkText(address: string, prefix: nat): string {
    address + "/" + Decimal(prefix)
  }

  function Text4(n: Network<nat>): string {
    NetworkText(FormatIpv4(n.address), n.prefix)
  }

  function Text6(inet: Inet6, n: Network<V6>): string {
    NetworkText(inet.format(n.address), n.prefix)
  }

  function NetworkWords4(networks: seq<Network<nat>>): seq<string> {
    if networks == [] then []
    else
      var last := networks[|networks| - 1];
      NetworkWords4(networks[..|networks| - 1]) + [Text4(last)]
  }

  function NetworkWords6(inet: Inet6, networks: seq<Network<V6>>): seq<string> {
    if networks == [] then []
    else
      var last := networks[|networks| - 1];
      NetworkWords6(inet, networks[..|networks| - 1]) + [Text6(inet, last)]
  }

  function ServerWords4(servers: seq<nat>): seq<string> {
    if servers == [] then [] else ServerWords4(servers[..|servers| - 1]) + [FormatIpv4(servers[|servers| - 1])]
  }

  function ServerWords6(inet: Inet6, servers: seq<V6>): seq<string> {
    if servers == [] then [] else ServerWords6(inet, servers[..|servers| - 1]) + [inet.format(servers[|servers| - 1])]
  }

  // Adds the domains not listed yet; the tilde is not shown.
  function AddDomains(words: seq<string>, search: seq<string>): seq<string> {
    if search == [] then words
    else
      var before, last := AddDomains(words, search[..|search| - 1]), search[|search| - 1];
      if last == "~" || last in before then before else before + [last]
  }

  function DnsWords(inet: Inet6, p: Profile): seq<string> {
    AddDomains(AddDomains(ServerWords4(p.v4.dns), p.v4.search) + ServerWords6(inet, p.v6.dns), p.v6.search)
  }

  function Line(key: string, value: string): string {
    key + " = " + value
  }

  function When(shown: bool, line: string): seq<string> {
    if shown then [line] else []
  }

  function NumberLine(key: string, n: nat): seq<string> {
    When(n > 0, Line(key, Decimal(n)))
  }

  function InterfaceLines(inet: Inet6, p: Profile): seq<string> {
    ["[Interface]", Line("PrivateKey", p.privateKey)]
    + [Line("Address", Joined(NetworkWords4(p.v4.networks) + NetworkWords6(inet, p.v6.networks), ", "))]
    + When(DnsWords(inet, p) != [], Line("DNS", Joined(DnsWords(inet, p), ", ")))
    + NumberLine("ListenPort", p.listenPort)
    + NumberLine("FwMark", p.fwmark)
    + NumberLine("MTU", p.mtu)
    + When(!p.peerRoutes, Line("Table", "off"))
  }

  function OptionLine(key: string, value: Option<string>): seq<string> {
    if value.Some? then [Line(key, value.value)] else []
  }

  function PeerLines(peer: Peer): seq<string> {
    ["", "[Peer]"]
    + [Line("PublicKey", if peer.publicKey.Some? then peer.publicKey.value else "")]
    + OptionLine("PresharedKey", peer.presharedKey)
    + OptionLine("Endpoint", peer.endpoint)
    + When(peer.allowed != [], Line("AllowedIPs", Joined(peer.allowed, ", ")))
    + NumberLine("PersistentKeepalive", peer.keepalive)
  }

  function PeersLines(peers: seq<Peer>): seq<string> {
    if peers == [] then [] else PeersLines(peers[..|peers| - 1]) + PeerLines(peers[|peers| - 1])
  }

  function ConfigLines(inet: Inet6, p: Profile): seq<string> {
    InterfaceLines(inet, p) + PeersLines(p.peers)
  }

  // Each line ends in a newline.
  function WireGuardConfig(inet: Inet6, p: Profile): string {
    Joined(ConfigLines(inet, p) + [""], "\n")
  }

  // ----- The loops -----

  // The number that the characters write in base 64.
  function Number64(data: string): nat {
    if data == "" then 0 else Number64(data[..|data| - 1]) * 64 + First(Alphabet(), data[|data| - 1])
  }

  // The number that the bytes write in base 256.
  function Number256(bytes: seq<nat>): nat {
    if bytes == [] then 0 else Number256(bytes[..|bytes| - 1]) * 256 + bytes[|bytes| - 1]
  }

  predicate AreBytes(bytes: seq<nat>) {
    forall k :: 0 <= k < |bytes| ==> bytes[k] < 256
  }

  // What a shift by so many bits divides by.
  function Shift(bits: nat): (factor: nat)
    ensures factor > 0
  {
    if bits == 0 then 1 else if bits == 2 then 4 else if bits == 4 then 16 else 64
  }

  // Six bits came in with every character, and eight went out with every byte.
  predicate Aligned(count: nat, k: nat, bits: nat) {
    bits < 8 && 8 * count + bits == 6 * k
  }

  // The bits that make no byte yet end the buffer.
  predicate Worth(number: nat, bytes: seq<nat>, buffer: nat, bits: nat) {
    number == Number256(bytes) * Shift(bits) + buffer % Shift(bits)
  }

  // What is done after k characters.
  ghost predicate Decoding(data: string, k: nat, bytes: seq<nat>, buffer: nat, bits: nat) {
    && k <= |data| && Aligned(|bytes|, k, bits) && AreBytes(bytes)
    && Worth(Number64(data[..k]), bytes, buffer, bits)
  }

  const WORD := 0x1_0000_0000

  // The buffer with six more bits.
  function Buffered(buffer: nat, digit: nat): nat {
    (buffer * 64 + digit) % WORD
  }

  // The byte above the bits that stay.
  function TopByte(buffer: nat, bits: nat): nat {
    buffer / Shift(bits) % 256
  }

  lemma AtLeast(k: int, m: nat)
    requires k >= 1
    ensures k * m >= m
  {
    assert k * m == (k - 1) * m + m && (k - 1) * m >= 0;
  }

  lemma RemainderIs(x: nat, m: nat, a: nat, b: nat)
    requires b < m && x == a * m + b
    ensures x % m == b
  {
    var q, r := x / m, x % m;
    assert x == q * m + r;
    assert (q - a) * m == q * m - a * m && (a - q) * m == a * m - q * m;
    if q > a {
      AtLeast(q - a, m);
    } else if q < a {
      AtLeast(a - q, m);
    }
  }

  lemma ShiftedIn(buffer: nat, digit: nat, bits: nat)
    requires digit < 64
    ensures (buffer * 64 + digit) % WORD % (64 * Shift(bits)) == buffer % Shift(bits) * 64 + digit
  {
    var p := Shift(bits);
    var x, high, low := buffer * 64 + digit, buffer / p, buffer % p * 64 + digit;
    WordKeeps(x, bits);
    RemainderIs(x, 64 * p, high, low);
  }

  // The word is wide enough for every shift.
  lemma WordKeeps(x: nat, bits: nat)
    ensures x % WORD % (64 * Shift(bits)) == x % (64 * Shift(bits))
  {
    var m := 64 * Shift(bits);
    var r := x % WORD;
    assert WORD % m == 0;
    RemainderIs(x, m, x / WORD * (WORD / m) + r / m, r % m) by {
      assert x / WORD * (WORD / m) * m == x / WORD * WORD;
    }
  }

  lemma ByteOut(x: nat, bits: nat)
    requires bits == 0 || bits == 2 || bits == 4
    ensures x % (256 * Shift(bits)) == x / Shift(bits) % 256 * Shift(bits) + x % Shift(bits)
  {
    var p := Shift(bits);
    var q, r := x / p, x % p;
    RemainderIs(x, 256 * p, q / 256, q % 256 * p + r);
  }

  lemma Carried(bits: nat, head: nat, low: nat, digit: nat, byte: nat, rest: nat)
    requires bits == 2 || bits == 4 || bits == 6
    requires low * 64 + digit == byte * Shift(bits - 2) + rest
    ensures (head * Shift(bits) + low) * 64 + digit == (head * 256 + byte) * Shift(bits - 2) + rest
  {
  }

  lemma CharacterRead(data: string, k: nat)
    requires k < |data| && data[k] in Alphabet()
    ensures First(Alphabet(), data[k]) < 64
    ensures Number64(data[..k + 1]) == Number64(data[..k]) * 64 + First(Alphabet(), data[k])
  {
    assert data[..k + 1][..k] == data[..k];
  }

  lemma ByteAdded(bytes: seq<nat>, byte: nat)
    requires AreBytes(bytes) && byte < 256
    ensures AreBytes(bytes + [byte]) && Number256(bytes + [byte]) == Number256(bytes) * 256 + byte
  {
    assert (bytes + [byte])[..|bytes|] == bytes;
  }

  lemma AlignedMore(count: nat, k: nat, bits: nat)
    requires Aligned(count, k, bits)
    ensures bits == 0 || bits == 2 || bits == 4 || bits == 6
    ensures bits < 2 ==> Aligned(count, k + 1, bits + 6)
    ensures bits >= 2 ==> Aligned(count + 1, k + 1, bits - 2)
  {
    var half := 3 * k - 4 * count;
    assert bits == 2 * half && 0 <= half < 4;
  }

  lemma WorthMore(number: nat, bytes: seq<nat>, buffer: nat, digit: nat, more: nat)
    requires Worth(number, bytes, buffer, 0) && digit < 64 && more == (buffer * 64 + digit) % WORD
    ensures Worth(number * 64 + digit, bytes, more, 6)
  {
    hide Number256;
    assert more % 64 == digit by {
      ShiftedIn(buffer, digit, 0);
    }
  }

  lemma WorthOut(number: nat, bytes: seq<nat>, buffer: nat, bits: nat, digit: nat, more: nat)
    requires Worth(number, bytes, buffer, bits) && AreBytes(bytes) && digit < 64
             && (bits == 2 || bits == 4 || bits == 6)
    requires more == (buffer * 64 + digit) % WORD
    ensures var next := bytes + [more / Shift(bits - 2) % 256];
            AreBytes(next) && Worth(number * 64 + digit, next, more, bits - 2)
  {
    hide Number256, Shift, AreBytes;
    var byte, rest := more / Shift(bits - 2) % 256, more % Shift(bits - 2);
    SplitAt(buffer, digit, bits, more);
    Carried(bits, Number256(bytes), buffer % Shift(bits), digit, byte, rest);
    ByteAdded(bytes, byte);
  }

  lemma DecodingMore(data: string, k: nat, bytes: seq<nat>, buffer: nat, bits: nat, digit: nat, more: nat)
    requires Decoding(data, k, bytes, buffer, bits) && k < |data| && data[k] in Alphabet() && bits < 2
    requires digit == First(Alphabet(), data[k]) && more == Buffered(buffer, digit)
    ensures Decoding(data, k + 1, bytes, more, bits + 6)
  {
    hide Number64, Number256, First, Aligned, Worth, AreBytes, Alphabet;
    CharacterRead(data, k);
    AlignedMore(|bytes|, k, bits);
    WorthMore(Number64(data[..k]), bytes, buffer, digit, more);
  }

  lemma DecodingOut(data: string, k: nat, bytes: seq<nat>, buffer: nat, bits: nat, digit: nat, more: nat)
    requires Decoding(data, k, bytes, buffer, bits) && k < |data| && data[k] in Alphabet() && bits >= 2
    requires digit == First(Alphabet(), data[k]) && more == Buffered(buffer, digit)
    ensures Decoding(data, k + 1, bytes + [TopByte(more, bits - 2)], more, bits - 2)
  {
    hide Number64, Number256, First, Shift, Aligned, Worth, AreBytes, Alphabet;
    CharacterRead(data, k);
    AlignedMore(|bytes|, k, bits);
    WorthOut(Number64(data[..k]), bytes, buffer, bits, digit, more);
  }

  lemma SplitAt(buffer: nat, digit: nat, bits: nat, more: nat)
    requires digit < 64 && (bits == 2 || bits == 4 || bits == 6)
    requires more == (buffer * 64 + digit) % WORD
    ensures buffer % Shift(bits) * 64 + digit == more / Shift(bits - 2) % 256 * Shift(bits - 2) + more % Shift(bits - 2)
  {
    ShiftedIn(buffer, digit, bits);
    ByteOut(more, bits - 2);
    assert 64 * Shift(bits) == 256 * Shift(bits - 2);
  }

  // Six bits a character, a byte whenever eight are there; bits left over count for nothing.
  method DecodeBase64(text: string) returns (decoded: Option<seq<nat>>)
    ensures match DecodedSize(text)
            case Some(n) => decoded.Some? && |decoded.value| == n
            case None => decoded.None?
    ensures decoded.Some? ==>
              && AreBytes(decoded.value)
              && Number256(decoded.value) == Number64(Unpadded(text)) / Shift(6 * |Unpadded(text)| % 8)
  {
    hide Number64, Number256, Shift, First, Decoding, Aligned, Worth, AreBytes, Buffered, TopByte, Alphabet;
    var data := text;
    while data != "" && data[|data| - 1] == '='
      invariant Unpadded(data) == Unpadded(text)
      decreases |data|
    {
      data := data[..|data| - 1];
    }
    assert data == Unpadded(text);
    hide Unpadded;
    if |text| - |data| > 2 || |data| % 4 == 1 {
      return None;
    }
    var bytes: seq<nat>, buffer: nat, bits: nat := [], 0, 0;
    var k := 0;
    DecodingStarts(data);
    while k < |data|
      invariant k <= |data| && Decoding(data, k, bytes, buffer, bits)
      invariant InAlphabet(data[..k])
    {
      if data[k] !in Alphabet() {
        return None;
      }
      var more := Buffered(buffer, First(Alphabet(), data[k]));
      if bits + 6 >= 8 {
        DecodingOut(data, k, bytes, buffer, bits, First(Alphabet(), data[k]), more);
        bytes, bits := bytes + [TopByte(more, bits - 2)], bits - 2;
      } else {
        DecodingMore(data, k, bytes, buffer, bits, First(Alphabet(), data[k]), more);
        bits := bits + 6;
      }
      buffer := more;
      k := k + 1;
    }
    DecodingEnds(data, bytes, buffer, bits);
    return Some(bytes);
  }

  lemma DecodingStarts(data: string)
    ensures Decoding(data, 0, [], 0, 0)
  {
  }

  lemma WorthIs(number: nat, bytes: seq<nat>, buffer: nat, bits: nat)
    requires Worth(number, bytes, buffer, bits)
    ensures Number256(bytes) == number / Shift(bits)
  {
    hide Number256, Shift;
    QuotientIs(number, Shift(bits), Number256(bytes), buffer % Shift(bits));
  }

  lemma QuotientIs(x: nat, m: nat, a: nat, b: nat)
    requires b < m && x == a * m + b
    ensures x / m == a
  {
    RemainderIs(x, m, a, b);
    assert (x / m - a) * m == 0;
  }

  lemma DecodingEnds(data: string, bytes: seq<nat>, buffer: nat, bits: nat)
    requires Decoding(data, |data|, bytes, buffer, bits)
    ensures |bytes| == |data| * 6 / 8 && AreBytes(bytes) && Number256(bytes) == Number64(data) / Shift(6 * |data| % 8)
  {
    hide Number64, Number256, Worth, AreBytes;
    assert data[..|data|] == data;
    assert bits == 6 * |data| % 8 && |bytes| == |data| * 6 / 8;
    hide Aligned;
    WorthIs(Number64(data), bytes, buffer, bits);
  }

  /** The reader goes through the lines once and gives up at the first that it cannot take. */
  method ReadProfile(inet: Inet6, content: string) returns (profile: Option<Profile>)
    ensures profile == WireGuardProfile(inet, content)
  {
    hide Take, Stripped, Complete, Finish;
    var lines := Split(content, '\n');
    var draft := START;
    var k := 0;
    while k < |lines|
      invariant k <= |lines| && Read(inet, START, lines[..k]) == Some(draft)
    {
      LineMore(inet, lines, k);
      var line := Strip(lines[k]);
      match Take(inet, draft, line) {
        case None =>
          Unreadable(inet, lines, k + 1);
          return None;
        case Some(next) => draft := next;
      }
      k := k + 1;
    }
    assert lines[..k] == lines;
    if !Complete(draft) {
      return None;
    }
    return Some(Finish(draft));
  }

  lemma LineMore(inet: Inet6, lines: seq<string>, k: nat)
    requires k < |lines|
    ensures Read(inet, START, lines[..k + 1]) ==
            match Read(inet, START, lines[..k]) case Some(d) => Take(inet, d, Stripped(lines[k])) case None => None
  {
    assert lines[..k + 1][..k] == lines[..k];
  }

  lemma {:induction false} Unreadable(inet: Inet6, lines: seq<string>, k: nat)
    requires k <= |lines| && Read(inet, START, lines[..k]).None?
    ensures Read(inet, START, lines).None?
    decreases |lines| - k
  {
    if k == |lines| {
      assert lines[..k] == lines;
    } else {
      LineMore(inet, lines, k);
      Unreadable(inet, lines, k + 1);
    }
  }

  /** The writer puts down the interface and then each peer. */
  method WriteConfig(inet: Inet6, p: Profile) returns (text: string)
    ensures text == WireGuardConfig(inet, p)
  {
    hide InterfaceLines, PeerLines, Joined;
    var lines := InterfaceLines(inet, p);
    var k := 0;
    Nothing(lines);
    while k < |p.peers|
      invariant k <= |p.peers| && lines == InterfaceLines(inet, p) + PeersLines(p.peers[..k])
    {
      assert p.peers[..k + 1][..k] == p.peers[..k];
      Regroup(InterfaceLines(inet, p), PeersLines(p.peers[..k]), PeerLines(p.peers[k]));
      lines := lines + PeerLines(p.peers[k]);
      k := k + 1;
    }
    assert p.peers[..k] == p.peers;
    return Joined(lines + [""], "\n");
  }

  lemma Nothing<T>(s: seq<T>)
    ensures s + [] == s && [] + s == s && s + [] + [] == s && ([] + s) + [] == s
  {
  }
}
