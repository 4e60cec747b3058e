/** What a WireGuard configuration that was read prints reads back, and prints the same again. */
module WireGuardRoundTrip {
  import opened ConfigText
  import opened Decimals
  import opened Ipv4
  import opened Options
  import opened Texts
  import opened WireGuard

  // ----- What every profile that was read is made of -----

  predicate IsNetwork4(n: Network<nat>) {
    n.address < LIMIT && n.prefix <= 32
  }

  predicate IsNetwork6(inet: Inet6, n: Network<V6>) {
    IsAddress6(inet, n.address) && n.prefix <= 128
  }

  predicate IsSearch(inet: Inet6, word: string) {
    IsWord(word) && IpOf(inet, word).NoIp?
  }

  // A value that survives a line of its own.
  predicate IsValue(value: string) {
    IsDense(value) && '#' !in value
  }

  predicate IsKeyValue(value: string) {
    IsKey(value) && IsValue(value)
  }

  ghost predicate IsPeer(peer: Peer) {
    && (peer.publicKey.Some? ==> IsKeyValue(peer.publicKey.value))
    && (peer.presharedKey.Some? ==> IsKeyValue(peer.presharedKey.value))
    && (peer.endpoint.Some? ==> IsValue(peer.endpoint.value) && ':' in peer.endpoint.value)
    && AreWords(peer.allowed) && peer.keepalive <= 0xFFFF
  }

  ghost predicate Networks4(ns: seq<Network<nat>>) {
    forall k :: 0 <= k < |ns| ==> IsNetwork4(ns[k])
  }

  ghost predicate Networks6(inet: Inet6, ns: seq<Network<V6>>) {
    forall k :: 0 <= k < |ns| ==> IsNetwork6(inet, ns[k])
  }

  ghost predicate Addresses4(servers: seq<nat>) {
    forall k :: 0 <= k < |servers| ==> servers[k] < LIMIT
  }

  ghost predicate Addresses6(inet: Inet6, servers: seq<V6>) {
    forall k :: 0 <= k < |servers| ==> IsAddress6(inet, servers[k])
  }

  ghost predicate Searches(inet: Inet6, search: seq<string>) {
    forall k :: 0 <= k < |search| ==> IsSearch(inet, search[k])
  }

  ghost predicate Peers(peers: seq<Peer>) {
    forall k :: 0 <= k < |peers| ==> IsPeer(peers[k])
  }

  ghost predicate Sane(inet: Inet6, d: Draft) {
    && (d.privateKey != "" ==> IsKeyValue(d.privateKey))
    && d.listenPort <= 0xFFFF && d.fwmark <= MAX_UINT && d.mtu <= MAX_UINT
    && Networks4(d.networks4) && Networks6(inet, d.networks6)
    && Addresses4(d.dns4) && Addresses6(inet, d.dns6) && Searches(inet, d.search)
    && Peers(d.peers)
    && (d.section.InPeer? ==> d.peers != [])
  }

  // ----- Reading keeps it so -----

  lemma IpIsSane(inet: Inet6, text: string)
    requires Faithful(inet)
    ensures IpOf(inet, text).Ip4? ==> IpOf(inet, text).a4 < LIMIT
    ensures IpOf(inet, text).Ip6? ==> IsAddress6(inet, IpOf(inet, text).a6)
  {
    ParsedInRange(text, 0, 0);
    hide ParseIpv4, IsAddress6;
  }

  lemma PrefixIsSane(word: string, most: nat)
    ensures PrefixOf(word, most).Some? ==> PrefixOf(word, most).value <= most
  {
    hide First, InBase;
  }

  lemma NetworkIsSane(inet: Inet6, to: Networks, word: string)
    requires Faithful(inet) && Networks4(to.v4) && Networks6(inet, to.v6)
    ensures var all := AddNetwork(inet, to, word); all.Some? ==>
            Networks4(all.value.v4) && Networks6(inet, all.value.v6)
  {
    IpIsSane(inet, word[..First(word, '/')]);
    PrefixIsSane(word, 32);
    PrefixIsSane(word, 128);
    hide IpOf, PrefixOf, IsAddress6, First;
  }

  lemma {:induction false} NetworksAreSane(inet: Inet6, to: Networks, words: seq<string>)
    requires Faithful(inet) && Networks4(to.v4) && Networks6(inet, to.v6)
    ensures var all := AddNetworks(inet, to, words); all.Some? ==>
            Networks4(all.value.v4) && Networks6(inet, all.value.v6)
  {
    if words != [] {
      NetworksAreSane(inet, to, words[..|words| - 1]);
      var before := AddNetworks(inet, to, words[..|words| - 1]);
      hide Networks4, Networks6, AddNetwork, Faithful;
      if before.Some? {
        NetworkIsSane(inet, before.value, words[|words| - 1]);
      }
    }
  }

  lemma {:induction false} ServersAreSane(inet: Inet6, words: seq<string>)
    requires Faithful(inet) && AreWords(words)
    ensures Addresses4(Servers4(inet, words)) && Addresses6(inet, Servers6(inet, words))
            && Searches(inet, Domains(inet, words))
  {
    if words != [] {
      ServersAreSane(inet, words[..|words| - 1]);
      IpIsSane(inet, words[|words| - 1]);
      hide IpOf, IsAddress6, Faithful, IsWord;
    }
  }

  lemma InterfaceIsSane(inet: Inet6, d: Draft, key: Key, value: string)
    requires Faithful(inet) && Sane(inet, d) && IsValue(value)
    ensures TakeInterface(inet, d, key, value).Some? ==> Sane(inet, TakeInterface(inet, d, key, value).value)
  {
    WordsAreWords(value);
    if key.Address? {
      NetworksAreSane(inet, Networks(d.networks4, d.networks6), Words(value));
    } else if key.Dns? {
      ServersAreSane(inet, Words(value));
    }
  }

  lemma PeerIsSane(peer: Peer, key: Key, value: string)
    requires IsPeer(peer) && IsValue(value)
    ensures TakePeer(peer, key, value).Some? ==> IsPeer(TakePeer(peer, key, value).value)
  {
    WordsAreWords(value);
    hide Words, ParseUInt, IsKey;
  }

  lemma WithPeerIsSane(inet: Inet6, d: Draft, peer: Peer)
    requires Sane(inet, d) && d.peers != [] && IsPeer(peer)
    ensures Sane(inet, WithPeer(d, peer))
  {
    hide IsPeer, Networks4, Networks6, Addresses4, Addresses6, Searches, IsKeyValue;
  }

  lemma SectionIsSane(inet: Inet6, d: Draft)
    requires Sane(inet, d)
    ensures Sane(inet, d.(section := Interface))
    ensures Sane(inet, d.(section := InPeer, peers := d.peers + [NEW_PEER]))
  {
    hide Networks4, Networks6, Addresses4, Addresses6, Searches, IsKeyValue;
    assert IsPeer(NEW_PEER);
    hide IsPeer;
  }

  lemma LastPeerIsSane(inet: Inet6, d: Draft)
    requires Sane(inet, d) && d.peers != []
    ensures IsPeer(LastPeer(d))
  {
    hide IsPeer;
  }

  lemma FieldIsSane(inet: Inet6, d: Draft, key: Key, value: string)
    requires Faithful(inet) && Sane(inet, d) && IsValue(value)
    ensures TakeField(inet, d, key, value).Some? ==> Sane(inet, TakeField(inet, d, key, value).value)
  {
    hide Sane, TakeInterface, TakePeer, Faithful, IsValue;
    InterfaceIsSane(inet, d, key, value);
    if d.section.InPeer? && d.peers != [] {
      assert IsPeer(LastPeer(d)) by { LastPeerIsSane(inet, d); }
      PeerIsSane(LastPeer(d), key, value);
      if TakePeer(LastPeer(d), key, value).Some? {
        WithPeerIsSane(inet, d, TakePeer(LastPeer(d), key, value).value);
      }
    }
  }

  lemma ValueIsPlain(line: string)
    requires IsValue(line)
    ensures IsValue(ValueOf(line))
  {
  }

  lemma TakeIsSane(inet: Inet6, d: Draft, line: string)
    requires Faithful(inet) && Sane(inet, d) && IsValue(line)
    ensures Take(inet, d, line).Some? ==> Sane(inet, Take(inet, d, line).value)
  {
    hide Sane, TakeField, KeyOf, Same, FieldOf, ValueOf, IsValue, Faithful;
    SectionIsSane(inet, d);
    ValueIsPlain(line);
    FieldIsSane(inet, d, KeyOf(FieldOf(line)), ValueOf(line));
  }

  lemma {:induction false} ReadIsSane(inet: Inet6, from: Draft, lines: seq<string>)
    requires Faithful(inet) && Sane(inet, from)
    ensures Read(inet, from, lines).Some? ==> Sane(inet, Read(inet, from, lines).value)
  {
    if lines != [] {
      ReadIsSane(inet, from, lines[..|lines| - 1]);
      var before, line := Read(inet, from, lines[..|lines| - 1]), Stripped(lines[|lines| - 1]);
      StrippedIsPlain(lines[|lines| - 1]);
      hide Take, Sane, Stripped;
      if before.Some? {
        TakeIsSane(inet, before.value, line);
      }
    }
  }

  // ----- Words that were printed -----

  lemma {:induction false} DigitsInBase(text: string)
    requires forall k :: 0 <= k < |text| ==> IsDigit(text[k])
    ensures InBase(text, 10) == Some(Number(text))
  {
    if text != "" {
      DigitsInBase(text[..|text| - 1]);
    }
  }

  lemma NumberReads(n: nat, anyBase: bool)
    requires n <= MAX_UINT && (anyBase ==> n > 0)
    ensures ParseUInt(Decimal(n), anyBase) == Some(n)
  {
    DigitsInBase(Decimal(n));
    NumberOfDecimal(n);
    DecimalStarts(n);
    hide InBase, Number, Decimal;
  }

  lemma PrefixReads(n: nat, most: nat)
    requires n <= most
    ensures ParsePrefix(Decimal(n), most) == Some(n)
  {
    DigitsInBase(Decimal(n));
    NumberOfDecimal(n);
    assert IsDigit(Decimal(n)[0]);
    hide InBase, Number, Decimal;
  }

  lemma NumberIsWord(n: nat)
    ensures IsWord(Decimal(n)) && '/' !in Decimal(n)
  {
    hide Decimal;
  }

  lemma FormatIsWord(address: nat)
    ensures IsWord(FormatIpv4(address)) && '/' !in FormatIpv4(address)
  {
    FormatIsPlain(address);
    hide FormatIpv4;
  }

  // A word with a prefix length: the address is before the only slash.
  lemma NetworkTextIs(address: string, n: nat, most: nat)
    requires IsWord(address) && '/' !in address && n <= most
    ensures var word := NetworkText(address, n);
            && word[..First(word, '/')] == address && PrefixOf(word, most) == Some(n) && IsWord(word)
  {
    NumberIsWord(n);
    PrefixReads(n, most);
    hide Decimal, ParsePrefix;
    var word := NetworkText(address, n);
    assert word[..|address|] == address && word[|address| + 1..] == Decimal(n);
    FirstIs(word, |address|, '/');
    WordJoined(address, Decimal(n));
  }

  lemma WordJoined(a: string, b: string)
    requires IsWord(a) && IsWord(b)
    ensures IsWord(a + "/" + b)
  {
    forall k | 0 <= k < |a + "/" + b|
      ensures !IsSpace((a + "/" + b)[k])
    {
    }
  }

  lemma Network4Reads(inet: Inet6, to: Networks, n: Network<nat>)
    requires IsNetwork4(n)
    ensures var word := Text4(n);
            IsWord(word) && AddNetwork(inet, to, word) == Some(to.(v4 := to.v4 + [n]))
  {
    FormatIsWord(n.address);
    FormatParses(n.address);
    NetworkTextIs(FormatIpv4(n.address), n.prefix, 32);
    hide NetworkText, FormatIpv4, ParseIpv4, PrefixOf, First, IsWord;
  }

  lemma Address6Reads(inet: Inet6, address: V6)
    requires IsAddress6(inet, address)
    ensures IpOf(inet, inet.format(address)) == Ip6(address)
  {
    if ParseIpv4(inet.format(address)).Some? {
      ParsedIsPlain(inet.format(address));
      assert false;
    }
  }

  lemma Network6Reads(inet: Inet6, to: Networks, n: Network<V6>)
    requires IsNetwork6(inet, n)
    ensures var word := Text6(inet, n);
            IsWord(word) && AddNetwork(inet, to, word) == Some(to.(v6 := to.v6 + [n]))
  {
    Address6Reads(inet, n.address);
    NetworkTextIs(inet.format(n.address), n.prefix, 128);
    hide NetworkText, IpOf, PrefixOf, First, IsWord;
  }

  lemma Ends<T>(s: seq<T>)
    requires s != []
    ensures s == s[..|s| - 1] + [s[|s| - 1]]
  {
  }

  lemma LastNetwork4(ns: seq<Network<nat>>)
    requires ns != []
    ensures NetworkWords4(ns) == NetworkWords4(ns[..|ns| - 1]) + [Text4(ns[|ns| - 1])]
  {
    hide Text4;
  }

  lemma LastNetwork6(inet: Inet6, ms: seq<Network<V6>>)
    requires ms != []
    ensures NetworkWords6(inet, ms) == NetworkWords6(inet, ms[..|ms| - 1]) + [Text6(inet, ms[|ms| - 1])]
  {
    hide Text6;
  }

  lemma BeforeLast(inet: Inet6, ns: seq<Network<nat>>, ms: seq<Network<V6>>)
    ensures Networks4(ns) && ns != [] ==> Networks4(ns[..|ns| - 1]) && IsNetwork4(ns[|ns| - 1])
    ensures Networks6(inet, ms) && ms != [] ==> Networks6(inet, ms[..|ms| - 1]) && IsNetwork6(inet, ms[|ms| - 1])
  {
    hide IsNetwork4, IsNetwork6;
  }

  lemma NothingRead(inet: Inet6, to: Networks)
    ensures AddNetworks(inet, to, []) == Some(to) && NetworkWords4([]) == [] && NetworkWords6(inet, []) == []
            && AreWords([])
  {
  }

  lemma {:induction false} Networks4Read(inet: Inet6, ns: seq<Network<nat>>)
    requires Networks4(ns)
    ensures AreWords(NetworkWords4(ns))
    ensures AddNetworks(inet, Networks([], []), NetworkWords4(ns)) == Some(Networks(ns, []))
  {
    hide *;
    if ns == [] {
      NothingRead(inet, Networks([], []));
    } else {
      var n := |ns| - 1;
      var word := Text4(ns[n]);
      LastNetwork4(ns);
      Ends(ns);
      BeforeLast(inet, ns, []);
      Networks4Read(inet, ns[..n]);
      Network4Reads(inet, Networks(ns[..n], []), ns[n]);
      WordAdded(NetworkWords4(ns[..n]), word);
      NetworkAdded(inet, Networks([], []), NetworkWords4(ns[..n]), word);
    }
  }

  lemma WordAdded(words: seq<string>, word: string)
    requires AreWords(words) && IsWord(word)
    ensures AreWords(words + [word])
  {
  }

  lemma NetworkAdded(inet: Inet6, to: Networks, words: seq<string>, word: string)
    ensures AddNetworks(inet, to, words + [word]) ==
            match AddNetworks(inet, to, words) case Some(before) => AddNetwork(inet, before, word) case None => None
  {
    assert (words + [word])[..|words|] == words;
  }

  /** The printed networks of both families read back, each with its family. */
  lemma {:induction false} NetworksRead(inet: Inet6, ns: seq<Network<nat>>, ms: seq<Network<V6>>)
    requires Networks4(ns) && Networks6(inet, ms)
    ensures AreWords(NetworkWords4(ns) + NetworkWords6(inet, ms))
    ensures AddNetworks(inet, Networks([], []), NetworkWords4(ns) + NetworkWords6(inet, ms)) == Some(Networks(ns, ms))
    decreases |ms|
  {
    hide *;
    if ms == [] {
      Networks4Read(inet, ns);
      NothingRead(inet, Networks([], []));
      assert NetworkWords4(ns) + [] == NetworkWords4(ns);
    } else {
      LastNetwork6(inet, ms);
      Ends(ms);
      BeforeLast(inet, ns, ms);
      var m := |ms| - 1;
      var word := Text6(inet, ms[m]);
      var words := NetworkWords4(ns) + NetworkWords6(inet, ms[..m]);
      NetworksRead(inet, ns, ms[..m]);
      Network6Reads(inet, Networks(ns, ms[..m]), ms[m]);
      NetworkAdded(inet, Networks([], []), words, word);
      Regroup(NetworkWords4(ns), NetworkWords6(inet, ms[..m]), [word]);
      WordAdded(words, word);
    }
  }

  // ----- Servers and search domains that were printed -----

  lemma {:induction false} ServersAppend(inet: Inet6, a: seq<string>, b: seq<string>)
    ensures Servers4(inet, a + b) == Servers4(inet, a) + Servers4(inet, b)
    ensures Servers6(inet, a + b) == Servers6(inet, a) + Servers6(inet, b)
    ensures Domains(inet, a + b) == Domains(inet, a) + Domains(inet, b)
    decreases |b|
  {
    hide IpOf;
    if b == [] {
      assert a + b == a;
    } else {
      assert (a + b)[..|a + b| - 1] == a + b[..|b| - 1];
      ServersAppend(inet, a, b[..|b| - 1]);
    }
  }

  // What words say: IPv4 servers, IPv6 servers and domains.
  ghost predicate Say(inet: Inet6, words: seq<string>, servers4: seq<nat>, servers6: seq<V6>, domains: seq<string>) {
    && AreWords(words) && Servers4(inet, words) == servers4
    && Servers6(inet, words) == servers6 && Domains(inet, words) == domains
  }

  lemma SayNothing(inet: Inet6)
    ensures Say(inet, [], [], [], []) && ServerWords4([]) == [] && ServerWords6(inet, []) == []
  {
  }

  lemma SayMore(inet: Inet6, a: seq<string>, b: seq<string>, a4: seq<nat>, a6: seq<V6>, aDomains: seq<string>,
                b4: seq<nat>, b6: seq<V6>, bDomains: seq<string>)
    requires Say(inet, a, a4, a6, aDomains) && Say(inet, b, b4, b6, bDomains)
    ensures Say(inet, a + b, a4 + b4, a6 + b6, aDomains + bDomains)
  {
    ServersAppend(inet, a, b);
    hide IsWord, Servers4, Servers6, Domains;
  }

  lemma SayOne(inet: Inet6, word: string)
    requires IsWord(word)
    ensures var ip := IpOf(inet, word);
            Say(inet, [word], if ip.Ip4? then [ip.a4] else [], if ip.Ip6? then [ip.a6] else [],
              if ip.NoIp? then [word] else [])
  {
    hide IpOf, IsWord;
    var one := [word];
    assert one[..|one| - 1] == [] && one[|one| - 1] == word;
    assert Servers4(inet, []) == [] && Servers6(inet, []) == [] && Domains(inet, []) == [];
    var ip := IpOf(inet, word);
    assert Servers4(inet, one) == [] + if ip.Ip4? then [ip.a4] else [];
    assert Servers6(inet, one) == [] + if ip.Ip6? then [ip.a6] else [];
    assert Domains(inet, one) == [] + if ip.NoIp? then [word] else [];
  }

  lemma LastServer4(servers: seq<nat>)
    requires servers != []
    ensures ServerWords4(servers) == ServerWords4(servers[..|servers| - 1]) + [FormatIpv4(servers[|servers| - 1])]
  {
    hide FormatIpv4;
  }

  lemma Address4Reads(inet: Inet6, address: nat)
    requires address < LIMIT
    ensures IsWord(FormatIpv4(address)) && IpOf(inet, FormatIpv4(address)) == Ip4(address)
  {
    FormatIsWord(address);
    FormatParses(address);
    hide FormatIpv4, IsWord;
  }

  ghost predicate AllIp(inet: Inet6, words: seq<string>) {
    forall word :: word in words ==> !IpOf(inet, word).NoIp?
  }

  lemma {:induction false} Servers4Read(inet: Inet6, servers: seq<nat>)
    requires Addresses4(servers)
    ensures Say(inet, ServerWords4(servers), servers, [], []) && AllIp(inet, ServerWords4(servers))
  {
    if servers == [] {
      SayNothing(inet);
    } else {
      var n := |servers| - 1;
      var before, word := ServerWords4(servers[..n]), FormatIpv4(servers[n]);
      assert servers[n] < LIMIT && Addresses4(servers[..n]);
      LastServer4(servers);
      hide Say, IsWord, FormatIpv4, IpOf, ServerWords4, Addresses4;
      Servers4Read(inet, servers[..n]);
      Address4Reads(inet, servers[n]);
      SayOne(inet, word);
      SayMore(inet, before, [word], servers[..n], [], [], [servers[n]], [], []);
      Ends(servers);
    }
  }

  lemma LastServer6(inet: Inet6, servers: seq<V6>)
    requires servers != []
    ensures ServerWords6(inet, servers) == ServerWords6(inet, servers[..|servers| - 1])
            + [inet.format(servers[|servers| - 1])]
  {
  }

  lemma {:induction false} Servers6Read(inet: Inet6, servers: seq<V6>)
    requires Addresses6(inet, servers)
    ensures Say(inet, ServerWords6(inet, servers), [], servers, []) && AllIp(inet, ServerWords6(inet, servers))
  {
    if servers == [] {
      SayNothing(inet);
    } else {
      var n := |servers| - 1;
      var before, word := ServerWords6(inet, servers[..n]), inet.format(servers[n]);
      assert IsAddress6(inet, servers[n]) && Addresses6(inet, servers[..n]);
      assert IsWord(word);
      LastServer6(inet, servers);
      hide Say, IsWord, IpOf, ServerWords6, Addresses6;
      Servers6Read(inet, servers[..n]);
      Address6Reads(inet, servers[n]);
      SayOne(inet, word);
      SayMore(inet, before, [word], [], servers[..n], [], [], [servers[n]], []);
      Ends(servers);
    }
  }

  lemma {:induction false} SearchesRead(inet: Inet6, words: seq<string>)
    requires Searches(inet, words)
    ensures Say(inet, words, [], [], words)
  {
    if words != [] {
      hide IpOf, IsWord;
      SearchesRead(inet, words[..|words| - 1]);
      Ends(words);
    }
  }

  predicate Distinct(words: seq<string>) {
    forall j, k :: 0 <= j < k < |words| ==> words[j] != words[k]
  }

  // The domains that a list shows: each once, and none for the mark that stands for all names.
  function Shown(search: seq<string>): seq<string> {
    AddDomains([], search)
  }

  lemma {:induction false} ShownIs(search: seq<string>)
    ensures Distinct(Shown(search)) && "~" !in Shown(search)
    ensures forall word :: word in Shown(search) <==> word in search && word != "~"
  {
    if search != [] {
      ShownIs(search[..|search| - 1]);
      Ends(search);
    }
  }

  lemma {:induction false} ShownStays(search: seq<string>)
    requires Distinct(search) && "~" !in search
    ensures Shown(search) == search
  {
    if search != [] {
      ShownStays(search[..|search| - 1]);
      Ends(search);
      assert search[|search| - 1] !in search[..|search| - 1];
    }
  }

  lemma {:induction false} AddedApart(words: seq<string>, search: seq<string>)
    requires forall word :: word in search ==> word !in words
    ensures AddDomains(words, search) == words + Shown(search)
  {
    if search != [] {
      var n := |search| - 1;
      AddedApart(words, search[..n]);
      assert search[n] in search;
      assert search[n] in words + Shown(search[..n]) <==> search[n] in Shown(search[..n]);
      Regroup(words, Shown(search[..n]), [search[n]]);
    }
  }

  lemma {:induction false} AddedKnown(words: seq<string>, search: seq<string>)
    requires forall word :: word in search ==> word == "~" || word in words
    ensures AddDomains(words, search) == words
  {
    if search != [] {
      AddedKnown(words, search[..|search| - 1]);
      assert search[|search| - 1] in search;
    }
  }

  // ----- The DNS line -----

  // A family of a profile that was read: servers only beside networks, domains only beside servers.
  ghost predicate IsFamily<A>(f: Family<A>, search: seq<string>) {
    && (f.networks == [] ==> f.dns == [])
    && f.search == if f.dns == [] then [] else SearchOf(search)
  }

  lemma Families(d: Draft)
    ensures IsFamily(Finish(d).v4, d.search) && IsFamily(Finish(d).v6, d.search)
  {
  }

  // The domains that a profile's line shows.
  function Named(p: Profile, search: seq<string>): seq<string> {
    if p.v4.dns == [] && p.v6.dns == [] then [] else Shown(SearchOf(search))
  }

  lemma ShownSearch(inet: Inet6, search: seq<string>)
    requires Searches(inet, search)
    ensures Searches(inet, Shown(SearchOf(search)))
    ensures search == [] ==> Shown(SearchOf(search)) == []
  {
    ShownIs(SearchOf(search));
    if search == [] {
      assert ["~"][..0] == [];
    }
    var shown := Shown(SearchOf(search));
    hide IsSearch, Shown;
    forall k | 0 <= k < |shown|
      ensures IsSearch(inet, shown[k])
    {
      assert shown[k] in SearchOf(search);
    }
  }

  // No domain is the text of a server.
  lemma DomainsApart(inet: Inet6, words: seq<string>, search: seq<string>)
    requires AllIp(inet, words) && Searches(inet, search)
    ensures forall word :: word in search ==> word !in words
  {
    hide IpOf, IsWord;
  }

  // What is shown after servers: the domains, but for the mark that stands for all names.
  lemma AddedToServers(inet: Inet6, words: seq<string>, search: seq<string>)
    requires AllIp(inet, words) && Searches(inet, search)
    ensures AddDomains(words, SearchOf(search)) == words + Shown(SearchOf(search))
  {
    if search == [] {
      AddedKnown(words, ["~"]);
      ShownSearch(inet, search);
      assert words + [] == words;
    } else {
      DomainsApart(inet, words, search);
      AddedApart(words, search);
    }
  }

  ghost predicate IsProfile(inet: Inet6, p: Profile, search: seq<string>) {
    && IsFamily(p.v4, search) && IsFamily(p.v6, search)
    && Addresses4(p.v4.dns) && Addresses6(inet, p.v6.dns) && Searches(inet, search)
  }

  /** The servers of both families and the domains, which follow the first servers. */
  lemma DnsWordsAre(inet: Inet6, p: Profile, search: seq<string>)
    requires IsProfile(inet, p, search)
    ensures DnsWords(inet, p) ==
            if p.v4.dns == [] then ServerWords6(inet, p.v6.dns) + Named(p, search)
            else (ServerWords4(p.v4.dns) + Named(p, search)) + ServerWords6(inet, p.v6.dns)
  {
    var first, second := ServerWords4(p.v4.dns), ServerWords6(inet, p.v6.dns);
    Servers4Read(inet, p.v4.dns);
    Servers6Read(inet, p.v6.dns);
    hide ServerWords4, ServerWords6, AllIp, Searches, Addresses4, Addresses6, Shown, Say;
    SayNothing(inet);
    if p.v4.dns == [] {
      assert AddDomains(ServerWords4([]), []) == ServerWords4([]);
      NothingBefore(inet, second);
      if p.v6.dns != [] {
        AddedToServers(inet, second, search);
      } else {
        assert AddDomains(second, []) == second + [];
      }
    } else {
      AddedToServers(inet, first, search);
      var words := (first + Named(p, search)) + second;
      ShownIs(SearchOf(search));
      assert forall word :: word in p.v6.search ==> word == "~" || word in words;
      AddedKnown(words, p.v6.search);
    }
  }

  lemma NothingBefore(inet: Inet6, words: seq<string>)
    ensures ServerWords4([]) + words == words
  {
  }

  lemma DnsSays(inet: Inet6, p: Profile, search: seq<string>)
    requires IsProfile(inet, p, search)
    ensures Say(inet, DnsWords(inet, p), p.v4.dns, p.v6.dns, Named(p, search))
  {
    DnsWordsAre(inet, p, search);
    Servers4Read(inet, p.v4.dns);
    Servers6Read(inet, p.v6.dns);
    ShownSearch(inet, search);
    SayNothing(inet);
    var named := Named(p, search);
    assert Searches(inet, named);
    SearchesRead(inet, named);
    hide *;
    Sum(inet, p, named);
  }

  lemma Sum(inet: Inet6, p: Profile, named: seq<string>)
    requires Say(inet, ServerWords4(p.v4.dns), p.v4.dns, [], [])
             && Say(inet, ServerWords6(inet, p.v6.dns), [], p.v6.dns, [])
    requires Say(inet, named, [], [], named)
    ensures Say(inet, ServerWords6(inet, p.v6.dns) + named, [], p.v6.dns, named)
    ensures Say(inet, (ServerWords4(p.v4.dns) + named) + ServerWords6(inet, p.v6.dns), p.v4.dns, p.v6.dns, named)
  {
    hide Say;
    var first, second := ServerWords4(p.v4.dns), ServerWords6(inet, p.v6.dns);
    Nothing<nat>([]);
    Nothing<V6>([]);
    Nothing<string>([]);
    Nothing(p.v4.dns);
    Nothing(p.v6.dns);
    Nothing(named);
    SayMore(inet, second, named, [], p.v6.dns, [], [], [], named);
    SayMore(inet, first, named, p.v4.dns, [], [], [], [], named);
    SayMore(inet, first + named, second, p.v4.dns, [], named, [], p.v6.dns, []);
  }

  /** A profile with the shown domains for its own shows the same line. */
  lemma DnsAgain(inet: Inet6, p: Profile, search: seq<string>, again: Profile)
    requires IsProfile(inet, p, search) && IsProfile(inet, again, Named(p, search))
    requires again.v4.dns == p.v4.dns && again.v6.dns == p.v6.dns
    ensures DnsWords(inet, again) == DnsWords(inet, p)
  {
    var named := Named(p, search);
    DnsWordsAre(inet, p, search);
    DnsWordsAre(inet, again, named);
    if p.v4.dns != [] || p.v6.dns != [] {
      ShownIs(SearchOf(search));
      if named == [] {
        ShownSearch(inet, named);
      } else {
        ShownStays(named);
      }
      assert Shown(SearchOf(named)) == named;
    }
  }

  // ----- Lines that were printed -----

  // A key as it is printed.
  predicate IsField(key: string) {
    key != "" && IsDense(key) && '#' !in key && '=' !in key && key[0] != '['
  }

  lemma EqualsIsDense()
    ensures Dense(" = ") == "="
  {
    assert " = "[..2] == " =" && " ="[..1] == " " && " "[..0] == "";
  }

  lemma StrippedLine(key: string, value: string)
    requires IsField(key) && '#' !in value
    ensures Stripped(Line(key, value)) == key + "=" + Dense(value)
  {
    NoComment(Line(key, value));
    DenseAppend(key + " = ", value);
    DenseAppend(key, " = ");
    DenseStays(key);
    EqualsIsDense();
    hide Dense, Stripped;
  }

  lemma FieldsOf(key: string, value: string)
    requires IsField(key)
    ensures var line := key + "=" + value;
            FieldOf(line) == key && ValueOf(line) == value && line != "" && line[0] != '['
  {
    var line := key + "=" + value;
    assert line[..|key|] == key && line[|key| + 1..] == value;
    FirstIs(line, |key|, '=');
  }

  lemma NoSection(line: string)
    requires line != "" && line[0] != '['
    ensures !Same(line, "[Interface]") && !Same(line, "[Peer]")
  {
    assert Lower("[Interface]"[0]) == '[' && Lower("[Peer]"[0]) == '[';
  }

  /** A printed line is read as its key and its value without whitespace. */
  lemma LineReads(inet: Inet6, d: Draft, key: string, value: string)
    requires IsField(key) && '#' !in value
    ensures Take(inet, d, Stripped(Line(key, value))) == TakeField(inet, d, KeyOf(key), Dense(value))
  {
    StrippedLine(key, value);
    FieldsOf(key, Dense(value));
    NoSection(key + "=" + Dense(value));
    hide *;
    TakeIs(inet, d, key + "=" + Dense(value));
  }

  lemma TakeIs(inet: Inet6, d: Draft, line: string)
    requires line != "" && !Same(line, "[Interface]") && !Same(line, "[Peer]")
    ensures Take(inet, d, line) == TakeField(inet, d, KeyOf(FieldOf(line)), ValueOf(line))
  {
  }

  ghost predicate Reads(inet: Inet6, from: Draft, lines: seq<string>, d: Draft) {
    Read(inet, from, lines) == Some(d)
  }

  lemma ReadsNothing(inet: Inet6, from: Draft)
    ensures Reads(inet, from, [], from)
  {
  }

  lemma ReadsLine(inet: Inet6, from: Draft, lines: seq<string>, d: Draft, line: string)
    requires Reads(inet, from, lines, d)
    ensures Read(inet, from, lines + [line]) == Take(inet, d, Stripped(line))
  {
    assert (lines + [line])[..|lines|] == lines;
  }

  lemma {:induction false} ReadsMore(inet: Inet6, from: Draft, a: seq<string>, b: seq<string>, d: Draft)
    requires Reads(inet, from, a, d)
    ensures Read(inet, from, a + b) == Read(inet, d, b)
    decreases |b|
  {
    hide Take, Stripped;
    if b == [] {
      assert a + b == a;
    } else {
      assert (a + b)[..|a + b| - 1] == a + b[..|b| - 1];
      ReadsMore(inet, from, a, b[..|b| - 1], d);
    }
  }

  lemma ReadsField(inet: Inet6, from: Draft, lines: seq<string>, d: Draft, key: string, value: string, now: Draft)
    requires Reads(inet, from, lines, d) && IsField(key) && '#' !in value
    requires TakeField(inet, d, KeyOf(key), Dense(value)) == Some(now)
    ensures Reads(inet, from, lines + [Line(key, value)], now)
  {
    ReadsLine(inet, from, lines, d, Line(key, value));
    LineReads(inet, d, key, value);
    hide TakeField, KeyOf, Dense, IsField, Take, Stripped, Line;
  }

  lemma InterfaceFields()
    ensures IsField("PrivateKey") && IsField("Address") && IsField("DNS") && IsField("Table")
    ensures IsField("ListenPort") && IsField("FwMark") && IsField("MTU")
  {
  }

  lemma KeyFields()
    ensures IsField("PublicKey") && IsField("PresharedKey")
  {
  }

  lemma PeerFields()
    ensures IsField("PersistentKeepalive") && IsField("Endpoint") && IsField("AllowedIPs")
  {
  }

  lemma FieldsOfInterface()
    ensures KeyOf("PrivateKey") == PrivateKey && KeyOf("Address") == Address && KeyOf("DNS") == Dns
            && KeyOf("Table") == Table
    ensures KeyOf("ListenPort") == ListenPort && KeyOf("FwMark") == FwMark && KeyOf("MTU") == Mtu
    ensures IsField("PrivateKey") && IsField("Address") && IsField("DNS") && IsField("Table")
    ensures IsField("ListenPort") && IsField("FwMark") && IsField("MTU")
  {
    InterfaceFields();
    hide IsField;
    assert Lower("MTU"[0]) != Lower("DNS"[0]);
    assert Lower("ListenPort"[0]) != Lower("PrivateKey"[0]);
  }

  lemma FieldsOfPeer()
    ensures KeyOf("PublicKey") == PublicKey && KeyOf("PresharedKey") == PresharedKey
            && KeyOf("PersistentKeepalive") == Keepalive
    ensures KeyOf("Endpoint") == Endpoint && KeyOf("AllowedIPs") == AllowedIps
    ensures IsField("PublicKey") && IsField("PresharedKey") && IsField("PersistentKeepalive")
    ensures IsField("Endpoint") && IsField("AllowedIPs")
  {
    KeyFields();
    PeerFields();
    hide IsField;
    FieldsOfKeys();
    FieldOfEndpoint();
    FieldOfAllowed();
    hide KeyOf;
  }

  lemma FieldOfPublicKey()
    ensures KeyOf("PublicKey") == PublicKey
  {
  }

  lemma FieldOfPresharedKey()
    ensures KeyOf("PresharedKey") == PresharedKey
  {
  }

  lemma FieldOfKeepalive()
    ensures KeyOf("PersistentKeepalive") == Keepalive
  {
  }

  lemma FieldsOfKeys()
    ensures KeyOf("PublicKey") == PublicKey && KeyOf("PresharedKey") == PresharedKey
            && KeyOf("PersistentKeepalive") == Keepalive
  {
    hide KeyOf;
    FieldOfPublicKey();
    FieldOfPresharedKey();
    FieldOfKeepalive();
  }

  lemma FieldOfEndpoint()
    ensures KeyOf("Endpoint") == Endpoint
  {
    assert Lower("Endpoint"[0]) != Lower("PostDown"[0]);
  }

  lemma FieldOfAllowed()
    ensures KeyOf("AllowedIPs") == AllowedIps
  {
    var field := "AllowedIPs";
    assert Lower(field[0]) != Lower("PrivateKey"[0]) && Lower(field[0]) != Lower("ListenPort"[0])
           && Lower(field[0]) != Lower("SaveConfig"[0]);
    assert !Same(field, "PrivateKey") && !Same(field, "ListenPort") && !Same(field, "SaveConfig");
  }

  // ----- The lines of the interface -----

  lemma PlainStays(value: string)
    requires IsValue(value)
    ensures Dense(value) == value && '#' !in value
  {
    DenseStays(value);
  }

  lemma JoinedReads(words: seq<string>)
    requires AreWords(words)
    ensures '#' !in Joined(words, ", ") && Words(Dense(Joined(words, ", "))) == words
  {
    DenseJoined(words);
    JoinedIsPlain(words, '#');
    WordsOfJoined(words);
  }

  lemma NumberStays(n: nat)
    ensures Dense(Decimal(n)) == Decimal(n) && '#' !in Decimal(n)
  {
    NumberIsWord(n);
    DenseStays(Decimal(n));
  }

  // The field is taken for this, where the value is printed so.
  ghost predicate Takes(inet: Inet6, d: Draft, key: Key, value: string, now: Draft) {
    TakeField(inet, d, key, Dense(value)) == Some(now) && '#' !in value
  }

  lemma ReadsTaken(inet: Inet6, from: Draft, lines: seq<string>, d: Draft, field: string, value: string, now: Draft)
    requires Reads(inet, from, lines, d) && IsField(field) && Takes(inet, d, KeyOf(field), value, now)
    ensures Reads(inet, from, lines + [Line(field, value)], now)
  {
    hide Reads, IsField, KeyOf, TakeField, Dense, Line;
    ReadsField(inet, from, lines, d, field, value, now);
  }

  // A line that is printed only where the value says something.
  lemma ReadsWhen(inet: Inet6, from: Draft, lines: seq<string>, d: Draft, shown: bool, field: string, value: string,
      now: Draft)
    requires Reads(inet, from, lines, d) && IsField(field)
    requires if shown then Takes(inet, d, KeyOf(field), value, now) else d == now
    ensures Reads(inet, from, lines + When(shown, Line(field, value)), now)
  {
    hide Reads, IsField, KeyOf, Takes, Line;
    if shown {
      ReadsTaken(inet, from, lines, d, field, value, now);
    } else {
      Nothing(lines);
    }
  }

  lemma TakesPrivateKey(inet: Inet6, d: Draft, key: string)
    requires d.section.Interface? && IsKeyValue(key)
    ensures Takes(inet, d, PrivateKey, key, d.(privateKey := key))
  {
    PlainStays(key);
    hide Dense, IsKey;
  }

  lemma TakesAddress(inet: Inet6, d: Draft, ns: seq<Network<nat>>, ms: seq<Network<V6>>)
    requires d.section.Interface? && d.networks4 == [] && d.networks6 == [] && Networks4(ns) && Networks6(inet, ms)
    ensures Takes(inet, d, Address, Joined(NetworkWords4(ns) + NetworkWords6(inet, ms), ", "),
            d.(networks4 := ns, networks6 := ms))
  {
    hide Networks4, Networks6, NetworkWords4, NetworkWords6, Joined, Takes;
    var words := NetworkWords4(ns) + NetworkWords6(inet, ms);
    NetworksRead(inet, ns, ms);
    JoinedReads(words);
    AddressTaken(inet, d, Joined(words, ", "), words, ns, ms);
  }

  lemma AddressTaken(inet: Inet6, d: Draft, text: string, words: seq<string>, ns: seq<Network<nat>>,
      ms: seq<Network<V6>>)
    requires d.section.Interface? && d.networks4 == [] && d.networks6 == [] && '#' !in text
             && Words(Dense(text)) == words
    requires AddNetworks(inet, Networks([], []), words) == Some(Networks(ns, ms))
    ensures Takes(inet, d, Address, text, d.(networks4 := ns, networks6 := ms))
  {
    hide Dense, Words, AddNetworks;
  }

  lemma TakesDns(inet: Inet6, d: Draft, words: seq<string>, dns4: seq<nat>, dns6: seq<V6>, search: seq<string>)
    requires d.section.Interface? && d.dns4 == [] && d.dns6 == [] && d.search == []
    requires Say(inet, words, dns4, dns6, search)
    ensures if words != [] then Takes(inet, d, Dns, Joined(words, ", "),
            d.(dns4 := dns4, dns6 := dns6, search := search))
            else d == d.(dns4 := dns4, dns6 := dns6, search := search)
  {
    Nothing(dns4);
    Nothing(dns6);
    Nothing(search);
    if words != [] {
      JoinedReads(words);
      hide Dense, Words, Joined, Servers4, Servers6, Domains, AreWords, IsKey, ParseUInt, AddNetworks;
    }
  }

  lemma TakesListenPort(inet: Inet6, d: Draft, n: nat)
    requires d.section.Interface? && n <= 0xFFFF
    ensures Takes(inet, d, ListenPort, Decimal(n), d.(listenPort := n))
  {
    NumberStays(n);
    NumberReads(n, false);
    hide Dense, ParseUInt, Decimal, IsKey, AddNetworks, Words, Servers4, Servers6, Domains;
  }

  lemma TakesFwMark(inet: Inet6, d: Draft, n: nat)
    requires d.section.Interface? && 0 < n <= MAX_UINT
    ensures Takes(inet, d, FwMark, Decimal(n), d.(fwmark := n))
  {
    NumberStays(n);
    NumberReads(n, true);
    NotOff(n);
    hide Dense, ParseUInt, Decimal, IsKey, AddNetworks, Words, Servers4, Servers6, Domains;
  }

  lemma TakesMtu(inet: Inet6, d: Draft, n: nat)
    requires d.section.Interface? && n <= MAX_UINT
    ensures Takes(inet, d, Mtu, Decimal(n), d.(mtu := n))
  {
    NumberStays(n);
    NumberReads(n, false);
    hide Dense, ParseUInt, Decimal, IsKey, AddNetworks, Words, Servers4, Servers6, Domains;
  }

  lemma NotOff(n: nat)
    ensures Decimal(n) != "off"
  {
    assert Decimal(n)[0] != "off"[0];
    hide Decimal;
  }

  lemma TakesTable(inet: Inet6, d: Draft)
    requires d.section.Interface?
    ensures Takes(inet, d, Table, "off", d.(peerRoutes := false))
  {
    PlainStays("off");
    hide Dense;
  }

  ghost predicate IsSaneProfile(inet: Inet6, p: Profile, search: seq<string>) {
    && IsKeyValue(p.privateKey)
    && p.listenPort <= 0xFFFF && p.fwmark <= MAX_UINT && p.mtu <= MAX_UINT
    && Networks4(p.v4.networks) && Networks6(inet, p.v6.networks) && IsProfile(inet, p, search)
  }

  // What the lines of the interface are read as.
  function AfterInterface(p: Profile, search: seq<string>): Draft {
    Draft(Interface, p.privateKey, p.listenPort, p.fwmark, p.mtu, p.peerRoutes, p.v4.networks, p.v6.networks,
          p.v4.dns, p.v6.dns, Named(p, search), [])
  }

  lemma HeadsArePlain()
    ensures Stripped("[Interface]") == "[Interface]" && Stripped("[Peer]") == "[Peer]" && Stripped("") == ""
  {
    HeadIsPlain("[Interface]");
    HeadIsPlain("[Peer]");
    NoComment("");
  }

  lemma HeadIsPlain(head: string)
    requires head == "[Interface]" || head == "[Peer]"
    ensures Stripped(head) == head
  {
    assert forall k :: 0 <= k < |head| ==> !IsSpace(head[k]) && head[k] != '#';
    PlainStays(head);
    NoComment(head);
  }

  lemma HeadsAreTaken(inet: Inet6, d: Draft)
    ensures Take(inet, d, "[Interface]") == Some(d.(section := Interface))
    ensures Take(inet, d, "[Peer]") == Some(d.(section := InPeer, peers := d.peers + [NEW_PEER]))
    ensures Take(inet, d, "") == Some(d)
  {
    assert Same("[Interface]", "[Interface]") && Same("[Peer]", "[Peer]") && !Same("[Peer]", "[Interface]");
  }

  lemma ReadsHead(inet: Inet6)
    ensures Reads(inet, START, ["[Interface]"], START.(section := Interface))
  {
    HeadsArePlain();
    HeadsAreTaken(inet, START);
    ReadsNothing(inet, START);
    hide *;
    ReadsOne(inet, START, "[Interface]", START.(section := Interface));
  }

  lemma ReadsOne(inet: Inet6, d: Draft, line: string, now: Draft)
    requires Take(inet, d, Stripped(line)) == Some(now)
    ensures Reads(inet, d, [line], now)
  {
    hide Take, Stripped;
    ReadsNothing(inet, d);
    ReadsLine(inet, d, [], d, line);
    assert [] + [line] == [line];
  }

  /** The printed lines of an interface read back. */
  lemma InterfaceReads(inet: Inet6, p: Profile, search: seq<string>)
    requires IsSaneProfile(inet, p, search)
    ensures Reads(inet, START, InterfaceLines(inet, p), AfterInterface(p, search))
  {
    ReadsHead(inet);
    InterfaceLinesAre(inet, p);
    hide Reads, IsSaneProfile, Joined, NetworkWords4, NetworkWords6, DnsWords, NumberLine, InterfaceLines;
    InterfaceFirst(inet, p, search, ["[Interface]"]);
    var lines := ["[Interface]"] + [Line("PrivateKey", p.privateKey)];
    assert lines == ["[Interface]", Line("PrivateKey", p.privateKey)];
  }

  // From the private key on.
  lemma InterfaceFirst(inet: Inet6, p: Profile, search: seq<string>, lines: seq<string>)
    requires IsSaneProfile(inet, p, search) && Reads(inet, START, lines, START.(section := Interface))
    ensures var words, addresses := DnsWords(inet, p),
              Joined(NetworkWords4(p.v4.networks) + NetworkWords6(inet, p.v6.networks), ", ");
            Reads(inet, START,
                  lines + [Line("PrivateKey", p.privateKey)] + [Line("Address", addresses)]
                  + When(words != [], Line("DNS", Joined(words, ", ")))
                  + NumberLine("ListenPort", p.listenPort) + NumberLine("FwMark", p.fwmark) + NumberLine("MTU", p.mtu)
                  + When(!p.peerRoutes, Line("Table", "off")),
                  AfterInterface(p, search))
  {
    hide KeyOf, IsField, Reads, DnsWords, Joined, Decimal, Line, When, NetworkWords4, NetworkWords6, IsProfile,
         IsKeyValue, Networks4, Networks6, Named, NumberLine;
    var d0 := START.(section := Interface);
    KeyFirst(inet, p, lines, d0);
    var addresses := Joined(NetworkWords4(p.v4.networks) + NetworkWords6(inet, p.v6.networks), ", ");
    var lines2 := lines + [Line("PrivateKey", p.privateKey)] + [Line("Address", addresses)];
    var d2 := d0.(privateKey := p.privateKey, networks4 := p.v4.networks, networks6 := p.v6.networks);
    DnsNext(inet, p, search, lines2, d2);
    var words := DnsWords(inet, p);
    var d3 := d2.(dns4 := p.v4.dns, dns6 := p.v6.dns, search := Named(p, search));
    InterfaceRest(inet, p, lines2 + When(words != [], Line("DNS", Joined(words, ", "))), d3);
  }

  lemma KeyFirst(inet: Inet6, p: Profile, lines: seq<string>, d: Draft)
    requires d.section.Interface? && d.networks4 == [] && d.networks6 == [] && Reads(inet, START, lines, d)
    requires IsKeyValue(p.privateKey) && Networks4(p.v4.networks) && Networks6(inet, p.v6.networks)
    ensures var addresses := Joined(NetworkWords4(p.v4.networks) + NetworkWords6(inet, p.v6.networks), ", ");
            Reads(inet, START, lines + [Line("PrivateKey", p.privateKey)] + [Line("Address", addresses)],
                  d.(privateKey := p.privateKey, networks4 := p.v4.networks, networks6 := p.v6.networks))
  {
    FieldsOfInterface();
    hide KeyOf, IsField, Reads, Takes, Joined, Line, NetworkWords4, NetworkWords6, IsKeyValue, Networks4, Networks6;
    TakesPrivateKey(inet, d, p.privateKey);
    var d1 := d.(privateKey := p.privateKey);
    ReadsTaken(inet, START, lines, d, "PrivateKey", p.privateKey, d1);
    var lines1 := lines + [Line("PrivateKey", p.privateKey)];
    TakesAddress(inet, d1, p.v4.networks, p.v6.networks);
    var addresses := Joined(NetworkWords4(p.v4.networks) + NetworkWords6(inet, p.v6.networks), ", ");
    var d2 := d1.(networks4 := p.v4.networks, networks6 := p.v6.networks);
    ReadsTaken(inet, START, lines1, d1, "Address", addresses, d2);
  }

  lemma FieldOfDns()
    ensures KeyOf("DNS") == Dns && IsField("DNS")
  {
    FieldsOfInterface();
    hide KeyOf, IsField;
  }

  lemma DnsNext(inet: Inet6, p: Profile, search: seq<string>, lines: seq<string>, d: Draft)
    requires d.section.Interface? && d.dns4 == [] && d.dns6 == [] && d.search == [] && IsProfile(inet, p, search)
    requires Reads(inet, START, lines, d)
    ensures var words := DnsWords(inet, p);
            Reads(inet, START, lines + When(words != [], Line("DNS", Joined(words, ", "))),
                  d.(dns4 := p.v4.dns, dns6 := p.v6.dns, search := Named(p, search)))
  {
    hide *;
    FieldOfDns();
    DnsSays(inet, p, search);
    var words := DnsWords(inet, p);
    var next := d.(dns4 := p.v4.dns, dns6 := p.v6.dns, search := Named(p, search));
    TakesDns(inet, d, words, p.v4.dns, p.v6.dns, Named(p, search));
    ReadsWhen(inet, START, lines, d, words != [], "DNS", Joined(words, ", "), next);
  }

  lemma InterfaceRest(inet: Inet6, p: Profile, lines: seq<string>, d: Draft)
    requires Reads(inet, START, lines, d) && d.section.Interface?
    requires d.listenPort == 0 && d.fwmark == 0 && d.mtu == 0 && d.peerRoutes
    requires p.listenPort <= 0xFFFF && p.fwmark <= MAX_UINT && p.mtu <= MAX_UINT
    ensures Reads(inet, START,
                  lines + NumberLine("ListenPort", p.listenPort) + NumberLine("FwMark", p.fwmark)
                    + NumberLine("MTU", p.mtu)
                  + When(!p.peerRoutes, Line("Table", "off")),
                  d.(listenPort := p.listenPort, fwmark := p.fwmark, mtu := p.mtu, peerRoutes := p.peerRoutes))
  {
    FieldsOfInterface();
    hide KeyOf, IsField, Reads, Takes, Decimal, Line, When;
    var d1 := d.(listenPort := p.listenPort);
    TakesListenPort(inet, d, p.listenPort);
    ReadsWhen(inet, START, lines, d, p.listenPort > 0, "ListenPort", Decimal(p.listenPort), d1);
    var lines1 := lines + NumberLine("ListenPort", p.listenPort);
    var d2 := d1.(fwmark := p.fwmark);
    if p.fwmark > 0 {
      TakesFwMark(inet, d1, p.fwmark);
    }
    ReadsWhen(inet, START, lines1, d1, p.fwmark > 0, "FwMark", Decimal(p.fwmark), d2);
    var lines2 := lines1 + NumberLine("FwMark", p.fwmark);
    var d3 := d2.(mtu := p.mtu);
    TakesMtu(inet, d2, p.mtu);
    ReadsWhen(inet, START, lines2, d2, p.mtu > 0, "MTU", Decimal(p.mtu), d3);
    var lines3 := lines2 + NumberLine("MTU", p.mtu);
    TakesTable(inet, d3);
    ReadsWhen(inet, START, lines3, d3, !p.peerRoutes, "Table", "off", d3.(peerRoutes := p.peerRoutes));
  }

  // ----- The lines of a peer -----

  function WithNewPeer(d: Draft, peer: Peer): Draft {
    d.(section := InPeer, peers := d.peers + [peer])
  }

  lemma ReadsPeerHead(inet: Inet6, d: Draft)
    ensures Reads(inet, d, ["", "[Peer]"], WithNewPeer(d, NEW_PEER))
  {
    HeadsArePlain();
    HeadsAreTaken(inet, d);
    ReadsNothing(inet, d);
    hide Take, Stripped;
    ReadsLine(inet, d, [], d, "");
    assert [] + [""] == [""] && [""] + ["[Peer]"] == ["", "[Peer]"];
    assert Reads(inet, d, [""], d);
    ReadsLine(inet, d, [""], d, "[Peer]");
  }

  lemma PeerTakes(inet: Inet6, d: Draft, peer: Peer, key: Key, value: string, now: Peer)
    requires TakePeer(peer, key, Dense(value)) == Some(now) && '#' !in value
    ensures Takes(inet, WithNewPeer(d, peer), key, value, WithNewPeer(d, now))
  {
    hide TakePeer, Dense;
    assert (d.peers + [peer])[..|d.peers|] == d.peers;
  }

  lemma TakesPeerKeys(inet: Inet6, d: Draft, peer: Peer, value: string)
    requires IsKeyValue(value)
    ensures Takes(inet, WithNewPeer(d, peer), PublicKey, value, WithNewPeer(d, peer.(publicKey := Some(value))))
    ensures Takes(inet, WithNewPeer(d, peer), PresharedKey, value, WithNewPeer(d, peer.(presharedKey := Some(value))))
  {
    PlainStays(value);
    hide Dense, IsKey, Takes;
    PeerTakes(inet, d, peer, PublicKey, value, peer.(publicKey := Some(value)));
    PeerTakes(inet, d, peer, PresharedKey, value, peer.(presharedKey := Some(value)));
  }

  lemma TakesEndpoint(inet: Inet6, d: Draft, peer: Peer, value: string)
    requires IsValue(value) && ':' in value
    ensures Takes(inet, WithNewPeer(d, peer), Endpoint, value, WithNewPeer(d, peer.(endpoint := Some(value))))
  {
    PlainStays(value);
    hide Dense, Takes;
    PeerTakes(inet, d, peer, Endpoint, value, peer.(endpoint := Some(value)));
  }

  lemma TakesAllowed(inet: Inet6, d: Draft, peer: Peer, words: seq<string>)
    requires AreWords(words) && peer.allowed == []
    ensures Takes(inet, WithNewPeer(d, peer), AllowedIps, Joined(words, ", "), WithNewPeer(d, peer.(allowed := words)))
  {
    JoinedReads(words);
    Nothing(words);
    hide Dense, Takes, Joined, Words;
    PeerTakes(inet, d, peer, AllowedIps, Joined(words, ", "), peer.(allowed := words));
  }

  lemma TakesKeepalive(inet: Inet6, d: Draft, peer: Peer, n: nat)
    requires 0 < n <= 0xFFFF
    ensures Takes(inet, WithNewPeer(d, peer), Keepalive, Decimal(n), WithNewPeer(d, peer.(keepalive := n)))
  {
    NumberStays(n);
    NumberReads(n, false);
    NotOff(n);
    hide Dense, Takes, Decimal, ParseUInt;
    PeerTakes(inet, d, peer, Keepalive, Decimal(n), peer.(keepalive := n));
  }

  /** The printed lines of a peer read back as that peer, after whatever came before. */
  lemma PeerReads(inet: Inet6, d: Draft, peer: Peer)
    requires IsPeer(peer) && peer.publicKey.Some?
    ensures Reads(inet, d, PeerLines(peer), WithNewPeer(d, peer))
  {
    FieldsOfPeer();
    ReadsPeerHead(inet, d);
    hide KeyOf, IsField, Reads, Takes, Decimal, Line, Joined, IsKeyValue, IsValue, AreWords, WithNewPeer;
    var lines, key := ["", "[Peer]"], peer.publicKey.value;
    TakesPeerKeys(inet, d, NEW_PEER, key);
    var p1 := NEW_PEER.(publicKey := peer.publicKey);
    ReadsTaken(inet, d, lines, WithNewPeer(d, NEW_PEER), "PublicKey", key, WithNewPeer(d, p1));
    var lines1 := lines + [Line("PublicKey", key)];
    var p2 := p1.(presharedKey := peer.presharedKey);
    if peer.presharedKey.Some? {
      TakesPeerKeys(inet, d, p1, peer.presharedKey.value);
      ReadsTaken(inet, d, lines1, WithNewPeer(d, p1), "PresharedKey", peer.presharedKey.value, WithNewPeer(d, p2));
    } else {
      Nothing(lines1);
    }
    var lines2 := lines1 + OptionLine("PresharedKey", peer.presharedKey);
    var p3 := p2.(endpoint := peer.endpoint);
    if peer.endpoint.Some? {
      TakesEndpoint(inet, d, p2, peer.endpoint.value);
      ReadsTaken(inet, d, lines2, WithNewPeer(d, p2), "Endpoint", peer.endpoint.value, WithNewPeer(d, p3));
    } else {
      Nothing(lines2);
    }
    PeerRest(inet, d, lines2 + OptionLine("Endpoint", peer.endpoint), p3, peer);
  }

  lemma PeerRest(inet: Inet6, d: Draft, lines: seq<string>, so: Peer, peer: Peer)
    requires Reads(inet, d, lines, WithNewPeer(d, so)) && AreWords(peer.allowed) && peer.keepalive <= 0xFFFF
    requires so == peer.(allowed := [], keepalive := 0)
    ensures Reads(inet, d,
                  lines + When(peer.allowed != [], Line("AllowedIPs", Joined(peer.allowed, ", ")))
                  + NumberLine("PersistentKeepalive", peer.keepalive),
                  WithNewPeer(d, peer))
  {
    FieldsOfPeer();
    hide KeyOf, IsField, Reads, Takes, Decimal, Line, When, Joined, AreWords, WithNewPeer;
    var p1 := so.(allowed := peer.allowed);
    TakesAllowed(inet, d, so, peer.allowed);
    ReadsWhen(inet, d, lines, WithNewPeer(d, so), peer.allowed != [], "AllowedIPs", Joined(peer.allowed, ", "),
      WithNewPeer(d, p1));
    var lines1 := lines + When(peer.allowed != [], Line("AllowedIPs", Joined(peer.allowed, ", ")));
    if peer.keepalive > 0 {
      TakesKeepalive(inet, d, p1, peer.keepalive);
    }
    ReadsWhen(inet, d, lines1, WithNewPeer(d, p1), peer.keepalive > 0, "PersistentKeepalive", Decimal(peer.keepalive),
      WithNewPeer(d, peer));
  }

  ghost predicate WholePeers(peers: seq<Peer>) {
    forall k :: 0 <= k < |peers| ==> IsPeer(peers[k]) && peers[k].publicKey.Some?
  }

  function AfterPeers(d: Draft, peers: seq<Peer>): Draft {
    if peers == [] then d else d.(section := InPeer, peers := d.peers + peers)
  }

  lemma {:induction false} PeersRead(inet: Inet6, d: Draft, peers: seq<Peer>)
    requires WholePeers(peers)
    ensures Reads(inet, d, PeersLines(peers), AfterPeers(d, peers))
  {
    if peers == [] {
      ReadsNothing(inet, d);
    } else {
      var n := |peers| - 1;
      PeersRead(inet, d, peers[..n]);
      var before := AfterPeers(d, peers[..n]);
      PeerReads(inet, before, peers[n]);
      hide IsPeer, Read, PeerLines;
      ReadsMore(inet, d, PeersLines(peers[..n]), PeerLines(peers[n]), before);
      Ends(peers);
      Regroup(d.peers, peers[..n], [peers[n]]);
      Nothing(d.peers);
    }
  }

  /** What is printed reads back; the search domains are those that were shown. */
  lemma ConfigReads(inet: Inet6, p: Profile, search: seq<string>)
    requires IsSaneProfile(inet, p, search) && WholePeers(p.peers)
    ensures Reads(inet, START, ConfigLines(inet, p) + [""], AfterPeers(AfterInterface(p, search), p.peers))
  {
    var d := AfterInterface(p, search);
    InterfaceReads(inet, p, search);
    PeersRead(inet, d, p.peers);
    HeadsArePlain();
    HeadsAreTaken(inet, AfterPeers(d, p.peers));
    hide IsSaneProfile, WholePeers, InterfaceLines, PeersLines, Read, Take, Stripped, AfterInterface, AfterPeers;
    ReadsMore(inet, START, InterfaceLines(inet, p), PeersLines(p.peers), d);
    ReadsLine(inet, START, ConfigLines(inet, p), AfterPeers(d, p.peers), "");
  }

  // ----- Text and lines -----

  ghost predicate OneLine(lines: seq<string>) {
    forall line :: line in lines ==> '\n' !in line
  }

  lemma ValueHasNoNewline(value: string)
    requires IsValue(value)
    ensures '\n' !in value
  {
    DenseHasNoNewline(value);
  }

  lemma NumberHasNoNewline(n: nat)
    ensures '\n' !in Decimal(n)
  {
    NumberIsWord(n);
    DenseHasNoNewline(Decimal(n));
  }

  lemma OneMore(lines: seq<string>, shown: bool, key: string, value: string)
    requires OneLine(lines) && '\n' !in key && '\n' !in value
    ensures OneLine(lines + [Line(key, value)]) && OneLine(lines + When(shown, Line(key, value)))
  {
    assert '\n' !in Line(key, value);
    hide Line;
  }

  lemma OneNumberMore(lines: seq<string>, key: string, n: nat)
    requires OneLine(lines) && '\n' !in key
    ensures OneLine(lines + NumberLine(key, n))
  {
    NumberHasNoNewline(n);
    hide Decimal, OneLine, Line, When;
    OneMore(lines, n > 0, key, Decimal(n));
  }

  lemma OneOptionMore(lines: seq<string>, key: string, value: Option<string>)
    requires OneLine(lines) && '\n' !in key && (value.Some? ==> IsValue(value.value))
    ensures OneLine(lines + OptionLine(key, value))
  {
    if value.Some? {
      ValueHasNoNewline(value.value);
      hide OneLine, Line;
      OneMore(lines, true, key, value.value);
    } else {
      Nothing(lines);
    }
  }

  lemma PeerLinesAreOne(peer: Peer)
    requires IsPeer(peer) && peer.publicKey.Some?
    ensures OneLine(PeerLines(peer))
  {
    var lines := ["", "[Peer]"];
    assert OneLine(lines);
    ValueHasNoNewline(peer.publicKey.value);
    JoinedIsPlain(peer.allowed, '\n');
    hide OneLine, Line, Joined, IsKey, AreWords, When, OptionLine, NumberLine;
    OneMore(lines, true, "PublicKey", peer.publicKey.value);
    var lines1 := lines + [Line("PublicKey", peer.publicKey.value)];
    OneOptionMore(lines1, "PresharedKey", peer.presharedKey);
    var lines2 := lines1 + OptionLine("PresharedKey", peer.presharedKey);
    OneOptionMore(lines2, "Endpoint", peer.endpoint);
    var lines3 := lines2 + OptionLine("Endpoint", peer.endpoint);
    OneMore(lines3, peer.allowed != [], "AllowedIPs", Joined(peer.allowed, ", "));
    OneNumberMore(lines3 + When(peer.allowed != [], Line("AllowedIPs", Joined(peer.allowed, ", "))),
      "PersistentKeepalive", peer.keepalive);
  }

  lemma {:induction false} PeersLinesAreOne(peers: seq<Peer>)
    requires WholePeers(peers)
    ensures OneLine(PeersLines(peers))
  {
    if peers != [] {
      var n := |peers| - 1;
      PeersLinesAreOne(peers[..n]);
      PeerLinesAreOne(peers[n]);
      hide PeerLines, IsPeer;
    }
  }

  lemma InterfaceLinesAreOne(inet: Inet6, p: Profile, search: seq<string>)
    requires IsSaneProfile(inet, p, search)
    ensures OneLine(InterfaceLines(inet, p))
  {
    ValueHasNoNewline(p.privateKey);
    NetworksRead(inet, p.v4.networks, p.v6.networks);
    var addresses := NetworkWords4(p.v4.networks) + NetworkWords6(inet, p.v6.networks);
    JoinedIsPlain(addresses, '\n');
    DnsSays(inet, p, search);
    var words := DnsWords(inet, p);
    JoinedIsPlain(words, '\n');
    hide *;
    LinesAreOne(p.privateKey, Joined(addresses, ", "), words, p);
    InterfaceLinesAre(inet, p);
  }

  lemma InterfaceLinesAre(inet: Inet6, p: Profile)
    ensures InterfaceLines(inet, p) ==
            LinesOf(p.privateKey, Joined(NetworkWords4(p.v4.networks) + NetworkWords6(inet, p.v6.networks), ", "),
              DnsWords(inet, p), p)
  {
    hide NetworkWords4, NetworkWords6, DnsWords, Joined, Line, When, NumberLine;
  }

  function LinesOf(key: string, addresses: string, words: seq<string>, p: Profile): seq<string> {
    ["[Interface]", Line("PrivateKey", key)] + [Line("Address", addresses)]
    + When(words != [], Line("DNS", Joined(words, ", ")))
    + NumberLine("ListenPort", p.listenPort) + NumberLine("FwMark", p.fwmark) + NumberLine("MTU", p.mtu)
    + When(!p.peerRoutes, Line("Table", "off"))
  }

  lemma LinesAreOne(key: string, addresses: string, words: seq<string>, p: Profile)
    requires '\n' !in key && '\n' !in addresses && '\n' !in Joined(words, ", ")
    ensures OneLine(LinesOf(key, addresses, words, p))
  {
    assert OneLine(["[Interface]"]);
    hide OneLine, Line, Joined, When, NumberLine;
    OneMore(["[Interface]"], true, "PrivateKey", key);
    var lines1 := ["[Interface]", Line("PrivateKey", key)];
    assert ["[Interface]"] + [Line("PrivateKey", key)] == lines1;
    OneMore(lines1, true, "Address", addresses);
    var lines2 := lines1 + [Line("Address", addresses)];
    OneMore(lines2, words != [], "DNS", Joined(words, ", "));
    var lines3 := lines2 + When(words != [], Line("DNS", Joined(words, ", ")));
    OneNumberMore(lines3, "ListenPort", p.listenPort);
    var lines4 := lines3 + NumberLine("ListenPort", p.listenPort);
    OneNumberMore(lines4, "FwMark", p.fwmark);
    var lines5 := lines4 + NumberLine("FwMark", p.fwmark);
    OneNumberMore(lines5, "MTU", p.mtu);
    OneMore(lines5 + NumberLine("MTU", p.mtu), !p.peerRoutes, "Table", "off");
  }

  // ----- The round trip -----

  lemma FinishIsSane(inet: Inet6, d: Draft)
    requires Sane(inet, d) && Complete(d)
    ensures IsSaneProfile(inet, Finish(d), d.search) && WholePeers(Finish(d).peers)
  {
    Families(d);
    hide IsPeer, IsKeyValue, Networks4, Networks6, Searches;
  }

  // The same in everything but how often a domain is listed, and the mark that stands for all names.
  ghost predicate SameProfile(p: Profile, again: Profile) {
    && again.privateKey == p.privateKey && again.peerRoutes == p.peerRoutes && again.peers == p.peers
    && again.listenPort == p.listenPort && again.fwmark == p.fwmark && again.mtu == p.mtu
    && again.v4.networks == p.v4.networks && again.v6.networks == p.v6.networks
    && again.v4.dns == p.v4.dns && again.v6.dns == p.v6.dns
    && SameDomains(p.v4.search, again.v4.search) && SameDomains(p.v6.search, again.v6.search)
  }

  ghost predicate SameDomains(search: seq<string>, again: seq<string>) {
    forall domain :: domain != "~" ==> (domain in search <==> domain in again)
  }

  // What is read from the printed text finishes as a profile that prints the same.
  lemma SamePrinted(inet: Inet6, p: Profile, search: seq<string>)
    requires IsSaneProfile(inet, p, search) && WholePeers(p.peers)
    ensures var d := AfterPeers(AfterInterface(p, search), p.peers);
            && Complete(d) && ConfigLines(inet, Finish(d)) == ConfigLines(inet, p)
            && SameProfile(p, Finish(d))
  {
    var d := AfterPeers(AfterInterface(p, search), p.peers);
    var again := Finish(d);
    AgainIsProfile(inet, p, search);
    Nothing(p.peers);
    KeyIsSomething(p.privateKey);
    DomainsAgain(inet, p, search, again);
    hide Named, IsKey, IsProfile, IsFamily, FamilyOf, DnsWords, IsPeer, NetworkWords4, NetworkWords6, SameDomains;
    DnsAgain(inet, p, search, again);
  }

  lemma DomainsAgain(inet: Inet6, p: Profile, search: seq<string>, again: Profile)
    requires IsProfile(inet, p, search) && IsProfile(inet, again, Named(p, search))
    requires again.v4.dns == p.v4.dns && again.v6.dns == p.v6.dns
    ensures SameDomains(p.v4.search, again.v4.search) && SameDomains(p.v6.search, again.v6.search)
  {
    ShownIs(SearchOf(search));
    hide Searches, Addresses4, Addresses6, Shown;
  }

  // Read back, the families are the same but for the domains.
  lemma AgainIsProfile(inet: Inet6, p: Profile, search: seq<string>)
    requires IsProfile(inet, p, search)
    ensures var again := Finish(AfterPeers(AfterInterface(p, search), p.peers));
            && IsProfile(inet, again, Named(p, search))
            && again.v4.networks == p.v4.networks && again.v6.networks == p.v6.networks
            && again.v4.dns == p.v4.dns && again.v6.dns == p.v6.dns
  {
    Families(AfterPeers(AfterInterface(p, search), p.peers));
    ShownSearch(inet, search);
    hide Searches, Addresses4, Addresses6, Shown;
    assert Searches(inet, Named(p, search)) by { SearchesNothing(inet); }
  }

  lemma SearchesNothing(inet: Inet6)
    ensures Searches(inet, [])
  {
  }

  lemma KeyIsSomething(key: string)
    requires IsKeyValue(key)
    ensures key != ""
  {
  }

  /** For every text that the reader takes: printing its profile gives a text that is read
      again, as the same profile, which prints identically. */
  lemma PrintReadPrint(inet: Inet6, content: string)
    requires Faithful(inet) && WireGuardProfile(inet, content).Some?
    ensures var p := WireGuardProfile(inet, content).value;
            var text := WireGuardConfig(inet, p);
            && WireGuardProfile(inet, text).Some?
            && SameProfile(p, WireGuardProfile(inet, text).value)
            && WireGuardConfig(inet, WireGuardProfile(inet, text).value) == text
  {
    var d := Read(inet, START, Split(content, '\n')).value;
    assert Sane(inet, START);
    ReadIsSane(inet, START, Split(content, '\n'));
    var p := Finish(d);
    FinishIsSane(inet, d);
    PrintedReads(inet, p, d.search);
  }

  lemma PrintedReads(inet: Inet6, p: Profile, search: seq<string>)
    requires IsSaneProfile(inet, p, search) && WholePeers(p.peers)
    ensures var text := WireGuardConfig(inet, p);
            && WireGuardProfile(inet, text).Some?
            && SameProfile(p, WireGuardProfile(inet, text).value)
            && WireGuardConfig(inet, WireGuardProfile(inet, text).value) == text
  {
    ConfigLinesAreOne(inet, p, search);
    hide *;
    var lines := ConfigLines(inet, p) + [""];
    var d := AfterPeers(AfterInterface(p, search), p.peers);
    SplitJoined(lines, '\n');
    ConfigReads(inet, p, search);
    SamePrinted(inet, p, search);
    Profiled(inet, WireGuardConfig(inet, p), lines, d);
    Printed(inet, p, Finish(d));
  }

  lemma ConfigLinesAreOne(inet: Inet6, p: Profile, search: seq<string>)
    requires IsSaneProfile(inet, p, search) && WholePeers(p.peers)
    ensures var lines := ConfigLines(inet, p) + [""];
            && (forall line :: line in lines ==> '\n' !in line) && lines != []
            && WireGuardConfig(inet, p) == Joined(lines, ['\n'])
  {
    InterfaceLinesAreOne(inet, p, search);
    PeersLinesAreOne(p.peers);
    hide InterfaceLines, PeersLines, IsSaneProfile, WholePeers, Joined;
  }

  lemma Profiled(inet: Inet6, text: string, lines: seq<string>, d: Draft)
    requires Split(text, '\n') == lines && Reads(inet, START, lines, d) && Complete(d)
    ensures WireGuardProfile(inet, text) == Some(Finish(d))
  {
    hide Read, Complete, Finish, Split;
  }

  lemma Printed(inet: Inet6, p: Profile, again: Profile)
    requires ConfigLines(inet, p) == ConfigLines(inet, again)
    ensures WireGuardConfig(inet, p) == WireGuardConfig(inet, again)
  {
    hide ConfigLines;
  }
}
