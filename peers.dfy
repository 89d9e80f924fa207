/** The responder summary printed for each hop: `createPeersString`
    (Traceroute/main.go, lines 124-153). Reverse DNS (`net.LookupAddr`) is a
    parameter. The source ignores the lookup's error and uses whatever names
    were returned, so a lookup is modelled as a plain list of names. The
    source repeats the lookup of the first peer for every entry; as a
    function, the model gives all those lookups the same answer. */
module Peers {
  import opened Exchange

  /** Reverse names returned for an address, whatever the lookup's error. */
  type Lookup = Addr -> seq<string>

  /** Every name has a character to drop. An empty name would make the source
      slice out of range and panic. */
  predicate NamesNonEmpty(names: seq<string>)
  {
    forall j :: 0 <= j < |names| ==> |names[j]| > 0
  }

  /** Neighbouring peers are textually equal: what the flag loop tests. */
  predicate AllIdentical(peers: seq<Addr>)
  {
    forall k :: 0 <= k < |peers| - 1 ==> peers[k] == peers[k + 1]
  }

  /** `parts` with `sep` between neighbours. */
  function Join(parts: seq<string>, sep: string): string
  {
    if |parts| == 0 then ""
    else if |parts| == 1 then parts[0]
    else Join(parts[..|parts| - 1], sep) + sep + parts[|parts| - 1]
  }

  /** Each reverse name without its last character: the root dot of a fully
      qualified domain name. Names are ASCII, so one character is one byte. */
  function Trimmed(names: seq<string>): (t: seq<string>)
    requires NamesNonEmpty(names)
    ensures |t| == |names|
    ensures forall j :: 0 <= j < |names| ==> t[j] + names[j][|names[j]| - 1..] == names[j]
  {
    seq(|names|, j requires 0 <= j < |names| => names[j][..|names[j]| - 1])
  }

  /** The parenthesised name list, or nothing when there are no names. */
  function NamesSuffix(names: seq<string>): string
    requires NamesNonEmpty(names)
  {
    if |names| == 0 then "" else " (" + Join(Trimmed(names), "  ") + ")"
  }

  /** The addresses shown: only the first when all are the same. */
  function Collapse(peers: seq<Addr>): seq<Addr>
    requires |peers| > 0
  {
    if AllIdentical(peers) then [peers[0]] else peers
  }

  /** One entry per shown address, each followed by the names found for the
      FIRST peer, joined by two spaces and bracketed. */
  function PeersString(peers: seq<Addr>, lookup: Lookup): string
    requires |peers| > 0 && NamesNonEmpty(lookup(peers[0]))
  {
    var shown := Collapse(peers);
    var suffix := NamesSuffix(lookup(peers[0]));
    "[" + Join(seq(|shown|, i requires 0 <= i < |shown| => shown[i] + suffix), "  ") + "]"
  }

  lemma JoinSnoc(parts: seq<string>, x: string, sep: string)
    requires |parts| > 0
    ensures Join(parts + [x], sep) == Join(parts, sep) + sep + x
  {
    assert (parts + [x])[..|parts|] == parts;
  }

  /** Appending `part + sep` for each part and then cutting the final `sep`
      gives the joined string: the step the source's accumulating loops take. */
  lemma JoinStep(parts: seq<string>, j: nat, sep: string)
    requires j < |parts|
    ensures j == 0 ==> Join(parts[..j + 1], sep) == parts[0]
    ensures j > 0 ==> Join(parts[..j + 1], sep) == Join(parts[..j], sep) + sep + parts[j]
  {
    assert parts[..j + 1] == parts[..j] + [parts[j]];
    if j > 0 {
      JoinSnoc(parts[..j], parts[j], sep);
    }
  }

  /** The flag loop's test is equivalent to every peer equalling the first. */
  lemma {:induction false} AllIdenticalIff(peers: seq<Addr>)
    ensures AllIdentical(peers) <==> forall k :: 0 <= k < |peers| ==> peers[k] == peers[0]
  {
    if |peers| > 1 {
      var init := peers[..|peers| - 1];
      AllIdenticalIff(init);
      assert forall k :: 0 <= k < |init| ==> init[k] == peers[k];
      if AllIdentical(peers) {
        assert AllIdentical(init);
        assert peers[|peers| - 1] == peers[|peers| - 2];
      }
    }
  }

  /** The inner loop of the source: each name minus its last character,
      followed by two spaces; the last two spaces are cut and the list is
      wrapped in " (" and ")". Nothing at all when there are no names. */
  method ReverseNamesSuffix(names: seq<string>) returns (ptr: string)
    requires NamesNonEmpty(names)
    ensures ptr == NamesSuffix(names)
  {
    ptr := "";
    if |names| > 0 {
      ghost var trimmed := Trimmed(names);
      ptr := " (";
      var j := 0;
      while j < |names|
        invariant 0 <= j <= |names|
        invariant j == 0 ==> ptr == " ("
        invariant j > 0 ==> ptr == " (" + Join(trimmed[..j], "  ") + "  "
      {
        JoinStep(trimmed, j, "  ");
        ptr := ptr + names[j][..|names[j]| - 1] + "  ";
        j := j + 1;
      }
      assert trimmed[..j] == trimmed;
      ptr := ptr[..|ptr| - 2];
      ptr := ptr + ")";
    }
  }

  /** One turn of the summary loop keeps `buff` equal to the bracket, the
      entries so far joined by two spaces, and a trailing two spaces. */
  lemma AccumulateStep(entries: seq<string>, i: nat, buff: string, addr: string, ptr: string)
    requires i < |entries| && entries[i] == addr + ptr
    requires i == 0 ==> buff == "["
    requires i > 0 ==> buff == "[" + Join(entries[..i], "  ") + "  "
    ensures buff + addr + ptr + "  " == "[" + Join(entries[..i + 1], "  ") + "  "
  {
    JoinStep(entries, i, "  ");
    if i > 0 {
      var prev := Join(entries[..i], "  ");
      calc {
        buff + addr + ptr + "  ";
        "[" + prev + "  " + (addr + ptr) + "  ";
        "[" + (prev + "  " + entries[i]) + "  ";
      }
    }
  }

  /** The flag loop of the source: cleared at the first pair of neighbours
      that differ, so set exactly when every peer equals the first. */
  method PeersAreIdentical(peers: seq<Addr>) returns (identical: bool)
    requires |peers| > 0
    ensures identical == AllIdentical(peers)
    ensures identical <==> forall k :: 0 <= k < |peers| ==> peers[k] == peers[0]
  {
    identical := true;
    var i := 0;
    while i < |peers| - 1
      invariant 0 <= i <= |peers| - 1
      invariant identical <==> forall k :: 0 <= k < i ==> peers[k] == peers[k + 1]
    {
      if peers[i] != peers[i + 1] {
        identical := false;
      }
      i := i + 1;
    }
    AllIdenticalIff(peers);
  }

  /** Builds the summary as the source does: a flag loop over neighbours,
      then one entry per shown address, each with the first peer's reverse
      names and a trailing two spaces; the last two spaces are cut at the end. */
  method CreatePeersString(peers: seq<Addr>, lookup: Lookup) returns (s: string)
    requires |peers| > 0 && NamesNonEmpty(lookup(peers[0]))
    ensures s == PeersString(peers, lookup)
  {
    var identical := PeersAreIdentical(peers);
    var shown := peers;
    if identical {
      shown := [peers[0]];
    }
    assert shown == Collapse(peers);
    ghost var suffix := NamesSuffix(lookup(peers[0]));
    ghost var entries := seq(|shown|, k requires 0 <= k < |shown| => shown[k] + suffix);

    var buff := "[";
    var i := 0;
    while i < |shown|
      invariant 0 <= i <= |shown|
      invariant i == 0 ==> buff == "["
      invariant i > 0 ==> buff == "[" + Join(entries[..i], "  ") + "  "
    {
      var ptr := ReverseNamesSuffix(lookup(shown[0]));
      AccumulateStep(entries, i, buff, shown[i], ptr);
      buff := buff + shown[i] + ptr + "  ";
      i := i + 1;
    }
    ghost var joined := "[" + Join(entries, "  ");
    assert entries[..i] == entries;
    assert buff == joined + "  ";
    buff := buff[..|buff| - 2];
    assert buff == joined;
    buff := buff + "]";
    s := buff;
  }

  /** The summary is bracketed. */
  lemma PeersStringBracketed(peers: seq<Addr>, lookup: Lookup)
    requires |peers| > 0 && NamesNonEmpty(lookup(peers[0]))
    ensures var s := PeersString(peers, lookup); |s| >= 2 && s[0] == '[' && s[|s| - 1] == ']'
  {
  }

  /** Any number of copies of one address print as that address alone. */
  lemma IdenticalPeersCollapse(peers: seq<Addr>, lookup: Lookup)
    requires |peers| > 0 && NamesNonEmpty(lookup(peers[0]))
    requires forall k :: 0 <= k < |peers| ==> peers[k] == peers[0]
    ensures PeersString(peers, lookup) == PeersString([peers[0]], lookup)
    ensures PeersString(peers, lookup) == "[" + peers[0] + NamesSuffix(lookup(peers[0])) + "]"
  {
    AllIdenticalIff(peers);
    AllIdenticalIff([peers[0]]);
  }

  /** With no reverse names, the summary lists the bare addresses. */
  lemma NoNamesBareAddresses(peers: seq<Addr>, lookup: Lookup)
    requires |peers| > 0 && lookup(peers[0]) == []
    ensures PeersString(peers, lookup) == "[" + Join(Collapse(peers), "  ") + "]"
  {
    var shown := Collapse(peers);
    assert NamesSuffix(lookup(peers[0])) == "";
    var entries := seq(|shown|, i requires 0 <= i < |shown| => shown[i] + NamesSuffix(lookup(peers[0])));
    forall i | 0 <= i < |shown|
      ensures entries[i] == shown[i]
    {
      assert shown[i] + "" == shown[i];
    }
    assert entries == shown;
  }

  /** Two different responders: the second entry carries the names of the
      first responder, not its own. */
  lemma SecondPeerGetsFirstPeersNames(a: Addr, b: Addr, lookup: Lookup)
    requires a != b && NamesNonEmpty(lookup(a))
    ensures PeersString([a, b], lookup) ==
      "[" + a + NamesSuffix(lookup(a)) + "  " + b + NamesSuffix(lookup(a)) + "]"
  {
    assert [a, b][0] == a && [a, b][1] == b;
    assert !AllIdentical([a, b]);
    var sfx := NamesSuffix(lookup(a));
    var entries := seq(2, i requires 0 <= i < 2 => [a, b][i] + sfx);
    assert Collapse([a, b]) == [a, b];
    assert entries == [a + sfx, b + sfx];
    assert entries[..1] == [a + sfx];
    assert Join(entries, "  ") == a + sfx + "  " + (b + sfx);
    assert PeersString([a, b], lookup) == "[" + Join(entries, "  ") + "]";
  }

  /** A concrete summary: three replies from one resolver named "dns.google.". */
  lemma ThreeRepliesFromOneResolver(lookup: Lookup)
    requires lookup("8.8.8.8") == ["dns.google."]
    ensures PeersString(["8.8.8.8", "8.8.8.8", "8.8.8.8"], lookup) == "[8.8.8.8 (dns.google)]"
  {
    var peers: seq<Addr> := ["8.8.8.8", "8.8.8.8", "8.8.8.8"];
    IdenticalPeersCollapse(peers, lookup);
    assert "dns.google."[..10] == "dns.google";
    assert Trimmed(["dns.google."]) == ["dns.google"];
  }
}
