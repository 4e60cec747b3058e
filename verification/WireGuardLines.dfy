/** What each line of a WireGuard configuration means to the profile that is read from it. */
module WireGuardLines {
  import opened ConfigText
  import opened Decimals
  import opened Ipv4
  import opened Options
  import opened Texts
  import opened WireGuard
  import WireGuardRoundTrip

  // ----- Names and keys -----

  // The same text but for the case of its letters.
  ghost predicate SameLetters(a: string, b: string) {
    |a| == |b| && forall k :: 0 <= k < |a| ==> SameLetter(a[k], b[k])
  }

  predicate SameLetter(a: char, b: char) {
    || a == b
    || ('A' <= a <= 'Z' && b as int == a as int + 32)
    || ('A' <= b <= 'Z' && a as int == b as int + 32)
  }

  lemma SameIsSameLetters(a: string, b: string)
    ensures Same(a, b) <==> SameLetters(a, b)
  {
    forall x: char, y: char
      ensures Lower(x) == Lower(y) <==> SameLetter(x, y)
    {
    }
    hide Lower, SameLetter;
  }

  // 43 characters of base 64 make 32 bytes; up to two more pad them.
  ghost predicate IsWireGuardKey(text: string) {
    && 43 <= |text| <= 45
    && (forall k :: 43 <= k < |text| ==> text[k] == '=')
    && forall k :: 0 <= k < 43 ==> IsBase64(text[k])
  }

  predicate IsBase64(c: char) {
    'A' <= c <= 'Z' || 'a' <= c <= 'z' || '0' <= c <= '9' || c == '+' || c == '/'
  }

  lemma {:induction false} UnpaddedIs(text: string)
    ensures var n := |Unpadded(text)|;
            && Unpadded(text) == text[..n]
            && (n > 0 ==> text[n - 1] != '=')
            && forall k :: n <= k < |text| ==> text[k] == '='
  {
    if text != "" && text[|text| - 1] == '=' {
      UnpaddedIs(text[..|text| - 1]);
    } else {
      assert text[..|text|] == text;
    }
  }

  lemma Letters(k: nat)
    requires k < 26
    ensures "ABCDEFGHIJKLMNOPQRSTUVWXYZ"[k] as int == 65 + k && "abcdefghijklmnopqrstuvwxyz"[k] as int == 97 + k
  {
  }

  lemma Others(k: nat)
    requires k < 12
    ensures "0123456789+/"[k] == if k < 10 then (48 + k) as char else if k == 10 then '+' else '/'
  {
  }

  lemma AlphabetIs(k: nat)
    requires k < 64
    ensures |Alphabet()| == 64
    ensures Alphabet()[k] as int ==
            if k < 26 then 65 + k else if k < 52 then 97 + k - 26 else if k < 62 then 48 + k - 52
            else if k == 62 then '+' as int else '/' as int
  {
    if k < 26 {
      Letters(k);
    } else if k < 52 {
      Letters(k - 26);
    } else {
      Others(k - 52);
    }
  }

  /** The characters stand for the numbers of section 4 of RFC 4648. */
  lemma SextetIs(c: char)
    ensures c in Alphabet() <==> IsBase64(c)
    ensures IsBase64(c) ==>
              First(Alphabet(), c) ==
              if 'A' <= c <= 'Z' then c as int - 65
              else if 'a' <= c <= 'z' then c as int - 97 + 26
              else if '0' <= c <= '9' then c as int - 48 + 52
              else if c == '+' then 62 else 63
  {
    AlphabetIs(0);
    var k := First(Alphabet(), c);
    if c in Alphabet() {
      assert Alphabet()[k] == c;
      AlphabetIs(k);
    }
    if IsBase64(c) {
      var at :=
        if 'A' <= c <= 'Z' then c as int - 65
        else if 'a' <= c <= 'z' then c as int - 97 + 26
        else if '0' <= c <= '9' then c as int - 48 + 52
        else if c == '+' then 62 else 63;
      AlphabetIs(at);
      assert Alphabet()[at] == c;
    }
  }

  /** A key is 32 bytes in base 64. */
  lemma KeyIs(text: string)
    ensures IsKey(text) <==> IsWireGuardKey(text)
  {
    UnpaddedIs(text);
    var data := Unpadded(text);
    assert |data| * 6 / 8 == 32 && |data| % 4 != 1 <==> |data| == 43;
    forall k | 0 <= k < |text|
      ensures text[k] in Alphabet() <==> IsBase64(text[k])
    {
      SextetIs(text[k]);
    }
    hide Unpadded, IsBase64;
    if IsWireGuardKey(text) {
      assert IsBase64(text[42]);
      assert text[42] != '=' by { NoPad(); }
      assert |data| == 43;
    }
    if |data| == 43 {
      assert forall k :: 0 <= k < 43 ==> data[k] == text[k];
    }
  }

  lemma NoPad()
    ensures !IsBase64('=')
  {
  }

  // The case of a field's letters does not matter.
  lemma SameKey(field: string, name: string)
    requires SameLetters(field, name)
    ensures KeyOf(field) == KeyOf(name)
  {
    SameIsSameLetters(field, name);
    hide SameLetters;
    SameOthers(field, name);
    hide Same;
  }

  lemma SameOthers(field: string, name: string)
    requires Same(field, name)
    ensures Same(field, "PrivateKey") <==> Same(name, "PrivateKey")
    ensures Same(field, "Address") <==> Same(name, "Address")
    ensures Same(field, "DNS") <==> Same(name, "DNS")
    ensures Same(field, "MTU") <==> Same(name, "MTU")
    ensures Same(field, "ListenPort") <==> Same(name, "ListenPort")
    ensures Same(field, "FwMark") <==> Same(name, "FwMark")
    ensures Same(field, "Table") <==> Same(name, "Table")
    ensures Same(field, "PreUp") <==> Same(name, "PreUp")
    ensures Same(field, "PreDown") <==> Same(name, "PreDown")
    ensures Same(field, "PostUp") <==> Same(name, "PostUp")
    ensures Same(field, "PostDown") <==> Same(name, "PostDown")
    ensures Same(field, "SaveConfig") <==> Same(name, "SaveConfig")
    ensures Same(field, "PublicKey") <==> Same(name, "PublicKey")
    ensures Same(field, "PresharedKey") <==> Same(name, "PresharedKey")
    ensures Same(field, "Endpoint") <==> Same(name, "Endpoint")
    ensures Same(field, "AllowedIPs") <==> Same(name, "AllowedIPs")
    ensures Same(field, "PersistentKeepalive") <==> Same(name, "PersistentKeepalive")
  {
    SameOther(field, name, "PrivateKey");
    SameOther(field, name, "Address");
    SameOther(field, name, "DNS");
    SameOther(field, name, "MTU");
    SameOther(field, name, "ListenPort");
    SameOther(field, name, "FwMark");
    SameOther(field, name, "Table");
    SameOther(field, name, "PreUp");
    SameOther(field, name, "PreDown");
    SameOther(field, name, "PostUp");
    SameOther(field, name, "PostDown");
    SameOther(field, name, "SaveConfig");
    SameOther(field, name, "PublicKey");
    SameOther(field, name, "PresharedKey");
    SameOther(field, name, "Endpoint");
    SameOther(field, name, "AllowedIPs");
    SameOther(field, name, "PersistentKeepalive");
    hide Same;
  }

  lemma SameOther(field: string, name: string, other: string)
    requires Same(field, name)
    ensures Same(field, other) <==> Same(name, other)
  {
    hide Lower;
  }

  /** The fields have their names, in letters of any case. */
  lemma NameIs(field: string, name: string)
    requires SameLetters(field, name)
    ensures var key := KeyOf(field);
            && (name == "PrivateKey" ==> key == PrivateKey) && (name == "Address" ==> key == Address)
            && (name == "DNS" ==> key == Dns) && (name == "MTU" ==> key == Mtu)
            && (name == "ListenPort" ==> key == ListenPort) && (name == "FwMark" ==> key == FwMark)
            && (name == "Table" ==> key == Table)
            && (name in {"PreUp", "PreDown", "PostUp", "PostDown", "SaveConfig"} ==> key == Script)
            && (name == "PublicKey" ==> key == PublicKey) && (name == "PresharedKey" ==> key == PresharedKey)
            && (name == "Endpoint" ==> key == Endpoint) && (name == "AllowedIPs" ==> key == AllowedIps)
            && (name == "PersistentKeepalive" ==> key == Keepalive)
  {
    SameKey(field, name);
    WireGuardRoundTrip.FieldsOfInterface();
    WireGuardRoundTrip.FieldsOfPeer();
    ScriptsBefore();
    ScriptsAfter();
    hide KeyOf, SameLetters;
  }

  lemma ScriptsBefore()
    ensures KeyOf("PreUp") == Script && KeyOf("PreDown") == Script
  {
    assert Lower("PreUp"[0]) != Lower("Table"[0]);
    assert Lower("PreDown"[0]) != Lower("Address"[0]);
  }

  lemma ScriptsAfter()
    ensures KeyOf("PostUp") == Script && KeyOf("PostDown") == Script && KeyOf("SaveConfig") == Script
  {
    assert Lower("PostUp"[0]) != Lower("FwMark"[0]);
    assert Lower("SaveConfig"[0]) != Lower("PrivateKey"[0]) && Lower("SaveConfig"[0]) != Lower("ListenPort"[0]);
  }

  // ----- Numbers -----

  // Decimal digits alone are read without a base.
  lemma {:induction false} DecimalDigits(text: string)
    ensures (forall k :: 0 <= k < |text| ==> IsDigit(text[k])) ==> InBase(text, 10) == Some(Number(text))
    ensures InBase(text, 10).Some? ==> forall k :: 0 <= k < |text| ==> IsDigit(text[k])
    decreases |text|
  {
    if text != "" {
      DecimalDigits(text[..|text| - 1]);
    }
  }

  lemma DecimalIsRead(text: string)
    ensures ParseUInt(text, false) ==
            if AllDigits(text) && Number(text) <= 0xFFFF_FFFF then Some(Number(text)) else None
  {
    DecimalDigits(text);
  }

  // ----- Lines -----

  lemma LineTaken(inet: Inet6, d: Draft, field: string, value: string)
    requires '=' !in field
    ensures Take(inet, d, field + "=" + value) == TakeField(inet, d, KeyOf(field), value)
  {
    var line := field + "=" + value;
    assert line[|field|] == '=' && line[..|field|] == field && line[|field| + 1..] == value;
    FirstIs(line, |field|, '=');
    NoHead(line, |field|);
  }

  lemma NoHead(line: string, k: nat)
    requires k < |line| && line[k] == '='
    ensures !Same(line, "[Interface]") && !Same(line, "[Peer]")
  {
    assert Lower('=') == '=';
    assert forall j :: 0 <= j < 11 ==> Lower("[Interface]"[j]) != '=';
    assert forall j :: 0 <= j < 6 ==> Lower("[Peer]"[j]) != '=';
  }

  /** A section starts with its name in brackets, and every peer is a new one. */
  lemma HeadTaken(inet: Inet6, d: Draft, line: string)
    ensures SameLetters(line, "[Interface]") ==> Take(inet, d, line) == Some(d.(section := Interface))
    ensures SameLetters(line, "[Peer]") ==>
              Take(inet, d, line) ==
              Some(d.(section := InPeer, peers := d.peers + [Peer(None, None, None, [], 0)]))
    ensures Take(inet, d, "") == Some(d)
  {
    SameIsSameLetters(line, "[Interface]");
    SameIsSameLetters(line, "[Peer]");
  }

  // Decimal digits for a number that is no larger than most.
  predicate IsNumber(value: string, most: nat) {
    AllDigits(value) && Number(value) <= most
  }

  /** What a setting of the interface is read as. */
  lemma SettingTaken(inet: Inet6, d: Draft, field: string, value: string)
    requires d.section.Interface? && '=' !in field
    ensures var key, now := KeyOf(field), Take(inet, d, field + "=" + value);
            && (key.PrivateKey? ==> now == if IsWireGuardKey(value) then Some(d.(privateKey := value)) else None)
            && (key.Mtu? ==> now == if IsNumber(value, 0xFFFF_FFFF) then Some(d.(mtu := Number(value))) else None)
            && (key.ListenPort? ==>
                  now == if IsNumber(value, 65535) then Some(d.(listenPort := Number(value))) else None)
            && (key.FwMark? ==>
                  now == if value == "off" then Some(d.(fwmark := 0))
                         else if ParseUInt(value, true).None? then None
                         else Some(d.(fwmark := ParseUInt(value, true).value)))
            && (key.Table? ==> now == Some(d.(peerRoutes := value != "off")))
            && (key.Script? ==> now == Some(d))
            && (key in {PublicKey, PresharedKey, Endpoint, AllowedIps, Keepalive, Unknown} ==> now == None)
  {
    LineTaken(inet, d, field, value);
    KeyIs(value);
    DecimalIsRead(value);
    hide Take, KeyOf, IsKey, IsWireGuardKey, ParseUInt, AddNetworks, Words;
  }

  lemma PeerIs(peer: Peer, key: Key, value: string)
    ensures var now := TakePeer(peer, key, value);
            && (key.PublicKey? ==> now == if IsWireGuardKey(value) then Some(peer.(publicKey := Some(value))) else None)
            && (key.PresharedKey? ==>
                  now == if IsWireGuardKey(value) then Some(peer.(presharedKey := Some(value))) else None)
            && (key.Endpoint? ==> now == if ':' in value then Some(peer.(endpoint := Some(value))) else None)
            && (key.AllowedIps? ==> now == Some(peer.(allowed := peer.allowed + Words(value))))
            && (key.Keepalive? ==>
                  now == if value == "off" then Some(peer.(keepalive := 0))
                         else if IsNumber(value, 65535) then Some(peer.(keepalive := Number(value)))
                         else None)
            && (key !in {PublicKey, PresharedKey, Endpoint, AllowedIps, Keepalive} ==> now == None)
  {
    KeyIs(value);
    DecimalIsRead(value);
    hide IsKey, IsWireGuardKey, ParseUInt, Words;
  }

  /** What a setting of a peer is read as: the last peer changes, and no other. */
  lemma PeerSettingTaken(inet: Inet6, d: Draft, field: string, value: string)
    requires d.section.InPeer? && d.peers != [] && '=' !in field
    ensures var key, peer, last := KeyOf(field), d.peers[|d.peers| - 1], |d.peers| - 1;
            var read :=
              match key
              case PublicKey => if IsWireGuardKey(value) then Some(peer.(publicKey := Some(value))) else None
              case PresharedKey => if IsWireGuardKey(value) then Some(peer.(presharedKey := Some(value))) else None
              case Endpoint => if ':' in value then Some(peer.(endpoint := Some(value))) else None
              case AllowedIps => Some(peer.(allowed := peer.allowed + Words(value)))
              case Keepalive =>
                if value == "off" then Some(peer.(keepalive := 0))
                else if IsNumber(value, 65535) then Some(peer.(keepalive := Number(value)))
                else None
              case _ => None;
            Take(inet, d, field + "=" + value) ==
            if read.Some? then Some(d.(peers := d.peers[last := read.value])) else None
  {
    LineTaken(inet, d, field, value);
    PeerIs(LastPeer(d), KeyOf(field), value);
    var read := TakePeer(LastPeer(d), KeyOf(field), value);
    assert read.Some? ==> WithPeer(d, read.value).peers == d.peers[|d.peers| - 1 := read.value];
    hide Take, TakePeer, KeyOf, IsWireGuardKey, Words, IsNumber;
  }

  // ----- Addresses -----

  /** An address stands for itself alone, or with a prefix length of at most its own for a network. */
  lemma NetworkTaken(inet: Inet6, to: Networks, address: string, digits: string)
    requires '/' !in address && AllDigits(digits)
    ensures var whole, part := AddNetwork(inet, to, address), AddNetwork(inet, to, address + "/" + digits);
            match ParseIpv4(address)
            case Some(a) =>
              && whole == Some(to.(v4 := to.v4 + [Network(a, 32)]))
              && part == if Number(digits) <= 32 then Some(to.(v4 := to.v4 + [Network(a, Number(digits))])) else None
            case None =>
              match inet.parse(address)
              case Some(a) =>
                && whole == Some(to.(v6 := to.v6 + [Network(a, 128)]))
                && part == if Number(digits) <= 128 then Some(to.(v6 := to.v6 + [Network(a, Number(digits))])) else None
              case None => whole == part == None
  {
    PrefixesAre(address, digits, 32);
    PrefixesAre(address, digits, 128);
    hide PrefixOf, ParseIpv4, Number, First;
  }

  lemma PrefixesAre(address: string, digits: string, most: nat)
    requires '/' !in address && AllDigits(digits)
    ensures var word := address + "/" + digits;
            && word[..First(word, '/')] == address && address[..First(address, '/')] == address
            && PrefixOf(address, most) == Some(most)
            && PrefixOf(word, most) == if Number(digits) <= most then Some(Number(digits)) else None
  {
    var word := address + "/" + digits;
    assert word[|address|] == '/' && word[..|address|] == address && word[|address| + 1..] == digits;
    FirstIs(word, |address|, '/');
    assert First(address, '/') == |address| && address[..|address|] == address;
    DecimalDigits(digits);
    hide First, InBase, Number;
    assert IsDigit(digits[0]);
  }

  /** The servers of a family count beside an address of that family. They are for all names where
      no domain is given. */
  lemma ServersNeedAddress(d: Draft)
    ensures var p := Finish(d);
            && p.v4.networks == d.networks4 && p.v6.networks == d.networks6
            && p.v4.dns == (if d.networks4 == [] then [] else d.dns4)
            && p.v6.dns == (if d.networks6 == [] then [] else d.dns6)
            && (p.v4.dns != [] ==> p.v4.search == if d.search == [] then ["~"] else d.search)
            && (p.v6.dns != [] ==> p.v6.search == if d.search == [] then ["~"] else d.search)
            && (p.v4.dns == [] ==> p.v4.search == []) && (p.v6.dns == [] ==> p.v6.search == [])
            && p.privateKey == d.privateKey && p.peers == d.peers && p.peerRoutes == d.peerRoutes
            && p.listenPort == d.listenPort && p.fwmark == d.fwmark && p.mtu == d.mtu
  {
  }
}
