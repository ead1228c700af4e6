/** extract_sequences.py: ordering a document's read keys by read number,
    finding each read in its FASTA file with one forward pass, and storing the
    flank and the LTR cut out of the read's sequence. */
module ExtractSequences {
  import opened Common
  import opened Sorting
  import opened HitTable

  // ---------------------------------------------------------------------
  // sort_read_ids

  /** `read_id, prime = key.split('.')`: the two names of a key, when it has
      exactly one dot. */
  function SplitKey(key: string): (r: Option<(string, string)>)
    ensures r.Some? ==> key == r.value.0 + "." + r.value.1 && '.' !in r.value.0 && '.' !in r.value.1
  {
    var parts := Split(key, '.');
    if |parts| == 2 then
      SplitTwoJoin(key, '.');
      Some((parts[0], parts[1]))
    else None
  }

  /** A key splits exactly when it is two dot-free names joined by one dot. */
  lemma SplitKeyJoin(readId: string, prime: string)
    requires '.' !in readId && '.' !in prime
    ensures SplitKey(readId + "." + prime) == Some((readId, prime))
  {
    SplitTwo(readId, prime, '.');
  }

  /** `read_id.split('.')[0]`: the read id of a key. */
  function ReadBase(key: string): string
  {
    Split(key, '.')[0]
  }

  /** The read id of a well-formed key is its first name. */
  lemma ReadBaseOfSplit(key: string)
    requires SplitKey(key).Some?
    ensures ReadBase(key) == SplitKey(key).value.0
  {
  }

  /** The first loop of sort_read_ids over the first keys: every key split,
      or the ValueError of the first key that does not split in two. */
  function SplitAll(keys: seq<string>): (r: Result<seq<(string, string)>>)
    ensures r.Success? ==> |r.value| == |keys|
  {
    if keys == [] then Success([])
    else
      match SplitAll(keys[..|keys| - 1])
      case Failure(e) => Failure(e)
      case Success(ps) =>
        match SplitKey(keys[|keys| - 1])
        case None => Failure(MalformedReadId(keys[|keys| - 1]))
        case Some(p) => Success(ps + [p])
  }

  /** SplitAll splits every key, or reports the first key that has not
      exactly one dot. */
  lemma {:induction false} SplitAllSpec(keys: seq<string>)
    ensures SplitAll(keys).Success? ==> forall i :: 0 <= i < |keys| ==> SplitKey(keys[i]) == Some(SplitAll(keys).value[i])
    ensures SplitAll(keys).Failure? ==>
              exists i :: 0 <= i < |keys| && SplitKey(keys[i]).None? && SplitAll(keys).error == MalformedReadId(keys[i])
                          && (forall j :: 0 <= j < i ==> SplitKey(keys[j]).Some?)
  {
    if keys != [] {
      var init := keys[..|keys| - 1];
      SplitAllSpec(init);
      assert forall i :: 0 <= i < |init| ==> init[i] == keys[i];
    }
  }

  /** The read ids, in key order. */
  function Bases(ps: seq<(string, string)>): (r: seq<string>)
    ensures |r| == |ps| && forall i :: 0 <= i < |ps| ==> r[i] == ps[i].0
  {
    seq(|ps|, i requires 0 <= i < |ps| => ps[i].0)
  }

  /** The primes dict: for each read id the terminus of the last key naming it. */
  function Primes(ps: seq<(string, string)>): map<string, string>
  {
    if ps == [] then map[] else Primes(ps[..|ps| - 1])[ps[|ps| - 1].0 := ps[|ps| - 1].1]
  }

  /** The dict has an entry for every read id and for nothing else. */
  lemma {:induction false} PrimesKeys(ps: seq<(string, string)>)
    ensures forall b :: b in Primes(ps) <==> b in Bases(ps)
  {
    if ps != [] {
      var init := ps[..|ps| - 1];
      PrimesKeys(init);
      assert Bases(ps) == Bases(init) + [ps[|ps| - 1].0];
    }
  }

  /** The entry of a read id is the terminus of the last key naming it. */
  lemma {:induction false} PrimesLast(ps: seq<(string, string)>, b: string)
    requires b in Primes(ps)
    ensures exists j :: 0 <= j < |ps| && ps[j].0 == b && Primes(ps)[b] == ps[j].1
                          && forall l :: j < l < |ps| ==> ps[l].0 != b
  {
    var init := ps[..|ps| - 1];
    if ps[|ps| - 1].0 != b {
      PrimesLast(init, b);
      var j :| 0 <= j < |init| && init[j].0 == b && Primes(init)[b] == init[j].1
                && forall l :: j < l < |init| ==> init[l].0 != b;
      assert ps[j] == init[j];
      assert forall l :: j < l < |ps| - 1 ==> ps[l] == init[l];
    }
  }

  /** With no later key naming the same read id, a key's terminus is the entry. */
  lemma {:induction false} PrimesOfLast(ps: seq<(string, string)>, j: nat)
    requires j < |ps| && forall l :: j < l < |ps| ==> ps[l].0 != ps[j].0
    ensures ps[j].0 in Primes(ps) && Primes(ps)[ps[j].0] == ps[j].1
  {
    var init := ps[..|ps| - 1];
    if j < |ps| - 1 {
      assert forall l :: j < l < |init| ==> init[l] == ps[l];
      PrimesOfLast(init, j);
    }
  }

  /** The first read id int() rejects, in list order: sorted() computes the
      keys of the elements one after the other. */
  function FirstNonInt(bs: seq<string>): (r: Option<string>)
    ensures r.None? <==> forall i :: 0 <= i < |bs| ==> IsInt(bs[i])
    ensures r.Some? ==> exists i :: 0 <= i < |bs| && bs[i] == r.value && !IsInt(bs[i])
  {
    if bs == [] then None
    else if !IsInt(bs[0]) then Some(bs[0])
    else
      var r := FirstNonInt(bs[1..]);
      assert forall i :: 1 <= i < |bs| ==> bs[i] == bs[1..][i - 1];
      r
  }

  /** Each read id paired with the key int() gives it. */
  function Decorate(bs: seq<string>): (r: seq<Keyed<string>>)
    requires forall i :: 0 <= i < |bs| ==> IsInt(bs[i])
    ensures |r| == |bs| && forall i :: 0 <= i < |bs| ==> r[i] == Keyed(IntOf(bs[i]), bs[i])
  {
    seq(|bs|, i requires 0 <= i < |bs| => Keyed(IntOf(bs[i]), bs[i]))
  }

  /** The read ids in the order `sorted(read_ids, key=int)` puts them. */
  function SortedBases(bs: seq<string>): seq<string>
    requires forall i :: 0 <= i < |bs| ==> IsInt(bs[i])
  {
    Items(SortByKey(Decorate(bs)))
  }

  function ItemOf(k: Keyed<string>): string
  {
    k.item
  }

  lemma ItemsAsMap(s: seq<Keyed<string>>)
    ensures Items(s) == Map(ItemOf, s)
  {
  }

  /** Every decorated read id carries int() of itself as its key, and so
      does every element of a rearrangement. */
  lemma SortedKeys(bs: seq<string>, s: seq<Keyed<string>>)
    requires forall i :: 0 <= i < |bs| ==> IsInt(bs[i])
    requires multiset(s) == multiset(Decorate(bs))
    ensures forall i :: 0 <= i < |s| ==> IsInt(s[i].item) && s[i].key == IntOf(s[i].item)
  {
    var d := Decorate(bs);
    forall i | 0 <= i < |s| ensures IsInt(s[i].item) && s[i].key == IntOf(s[i].item) {
      assert s[i] in multiset(d);
      var m :| 0 <= m < |d| && d[m] == s[i];
    }
  }

  /** sorted() rearranges the read ids into ascending integer order. */
  lemma SortedBasesFacts(bs: seq<string>)
    requires forall i :: 0 <= i < |bs| ==> IsInt(bs[i])
    ensures var r := SortedBases(bs);
            |r| == |bs| && multiset(r) == multiset(bs)
            && (forall i :: 0 <= i < |r| ==> IsInt(r[i]))
            && forall i, j :: 0 <= i < j < |r| ==> IntOf(r[i]) <= IntOf(r[j])
  {
    var d := Decorate(bs);
    var s := SortByKey(d);
    assert multiset(Items(s)) == multiset(bs) by {
      ItemsAsMap(s);
      assert bs == Map(ItemOf, d);
      MapPerm(ItemOf, s, d);
    }
    SortedKeys(bs, s);
  }

  /** Every read id, and so every sorted read id, has an entry in the dict. */
  lemma SortedBasesKnown(ps: seq<(string, string)>)
    requires forall i :: 0 <= i < |ps| ==> IsInt(Bases(ps)[i])
    ensures forall i :: 0 <= i < |SortedBases(Bases(ps))| ==> SortedBases(Bases(ps))[i] in Primes(ps)
  {
    var sorted := SortedBases(Bases(ps));
    SortedBasesFacts(Bases(ps));
    PrimesKeys(ps);
    forall i | 0 <= i < |sorted| ensures sorted[i] in Primes(ps) {
      assert sorted[i] in multiset(Bases(ps));
    }
  }

  /** A read id followed by the terminus the dict gives it. */
  function JoinPrime(primes: map<string, string>): string --> string
  {
    b requires b in primes => b + "." + primes[b]
  }

  /** The second loop of sort_read_ids: each read id followed by its terminus. */
  function Rejoin(bs: seq<string>, primes: map<string, string>): (r: seq<string>)
    requires forall i :: 0 <= i < |bs| ==> bs[i] in primes
    ensures |r| == |bs| && forall i :: 0 <= i < |bs| ==> r[i] == bs[i] + "." + primes[bs[i]]
  {
    Map(JoinPrime(primes), bs)
  }

  /** sort_read_ids: the keys ordered by the integer value of their read id,
      each read id followed by the terminus its last key gave it. */
  function SortedReadIds(keys: seq<string>): Result<seq<string>>
  {
    match SplitAll(keys)
    case Failure(e) => Failure(e)
    case Success(ps) =>
      match FirstNonInt(Bases(ps))
      case Some(b) => Failure(NotAnInteger(b))
      case None =>
        SortedBasesKnown(ps);
        Success(Rejoin(SortedBases(Bases(ps)), Primes(ps)))
  }

  /** The first loop of sort_read_ids: split every key, collecting the read
      ids in order and the last terminus of each. */
  method SplitKeys(keys: seq<string>) returns (r: Result<(seq<string>, map<string, string>)>)
    ensures SplitAll(keys).Failure? ==> r == Failure(SplitAll(keys).error)
    ensures SplitAll(keys).Success? ==> r == Success((Bases(SplitAll(keys).value), Primes(SplitAll(keys).value)))
  {
    var primes: map<string, string> := map[];
    var readIds: seq<string> := [];
    ghost var ps: seq<(string, string)> := [];
    var i := 0;
    while i < |keys|
      invariant 0 <= i <= |keys|
      invariant SplitAll(keys[..i]) == Success(ps)
      invariant readIds == Bases(ps) && primes == Primes(ps)
    {
      SplitAllStep(keys, i, ps);
      var parts := Split(keys[i], '.');
      if |parts| != 2 {
        SplitAllPrefixFailure(keys, i + 1);
        return Failure(MalformedReadId(keys[i]));
      }
      BasesPrimesSnoc(ps, (parts[0], parts[1]));
      readIds := readIds + [parts[0]];
      primes := primes[parts[0] := parts[1]];
      ps := ps + [(parts[0], parts[1])];
      i := i + 1;
    }
    assert keys[..|keys|] == keys;
    return Success((readIds, primes));
  }

  /** One more key: its split appended, or its error. */
  lemma SplitAllStep(keys: seq<string>, i: nat, ps: seq<(string, string)>)
    requires i < |keys| && SplitAll(keys[..i]) == Success(ps)
    ensures SplitAll(keys[..i + 1]) == match SplitKey(keys[i])
                                       case None => Failure(MalformedReadId(keys[i]))
                                       case Some(p) => Success(ps + [p])
  {
    assert keys[..i + 1][..i] == keys[..i];
  }

  lemma BasesPrimesSnoc(ps: seq<(string, string)>, p: (string, string))
    ensures Bases(ps + [p]) == Bases(ps) + [p.0]
    ensures Primes(ps + [p]) == Primes(ps)[p.0 := p.1]
  {
    assert (ps + [p])[..|ps|] == ps;
  }

  /** A failure on a prefix of the keys is the failure on all of them. */
  lemma {:induction false} SplitAllPrefixFailure(keys: seq<string>, n: nat)
    requires n <= |keys| && SplitAll(keys[..n]).Failure?
    ensures SplitAll(keys) == SplitAll(keys[..n])
    decreases |keys| - n
  {
    if n < |keys| {
      assert keys[..n + 1][..n] == keys[..n];
      SplitAllPrefixFailure(keys, n + 1);
    } else {
      assert keys[..n] == keys;
    }
  }

  /** The second loop of sort_read_ids: the sorted list rewritten in place,
      entry by entry. */
  method RejoinInPlace(sorted: seq<string>, primes: map<string, string>) returns (r: seq<string>)
    requires forall i :: 0 <= i < |sorted| ==> sorted[i] in primes
    ensures r == Rejoin(sorted, primes)
  {
    var out := new string[|sorted|](j requires 0 <= j < |sorted| => sorted[j]);
    var index := 0;
    while index < out.Length
      invariant 0 <= index <= out.Length
      invariant forall j :: 0 <= j < index ==> out[j] == sorted[j] + "." + primes[sorted[j]]
      invariant forall j :: index <= j < out.Length ==> out[j] == sorted[j]
    {
      out[index] := out[index] + "." + primes[out[index]];
      index := index + 1;
    }
    r := out[..];
  }

  /** sort_read_ids, as the Python code runs it. */
  method SortReadIds(keys: seq<string>) returns (r: Result<seq<string>>)
    ensures r == SortedReadIds(keys)
  {
    var split := SplitKeys(keys);
    if split.Failure? {
      return Failure(split.error);
    }
    var readIds, primes := split.value.0, split.value.1;
    var bad := FirstNonInt(readIds);
    if bad.Some? {
      return Failure(NotAnInteger(bad.value));
    }
    var sorted := SortedBases(readIds);
    SortedBasesKnown(SplitAll(keys).value);
    var rejoined := RejoinInPlace(sorted, primes);
    return Success(rejoined);
  }

  /** sort_read_ids fails exactly when a key has not exactly one dot or a
      read id is not an integer. */
  lemma SortedReadIdsSucceeds(keys: seq<string>)
    ensures SortedReadIds(keys).Success? <==>
              forall i :: 0 <= i < |keys| ==> SplitKey(keys[i]).Some? && IsInt(SplitKey(keys[i]).value.0)
  {
    SplitAllSpec(keys);
  }

  /** A key without exactly one dot is reported, the first such key when
      there are several. */
  lemma SortedReadIdsMalformed(keys: seq<string>, i: nat)
    requires i < |keys| && SplitKey(keys[i]).None?
    requires forall j :: 0 <= j < i ==> SplitKey(keys[j]).Some?
    ensures SortedReadIds(keys) == Failure(MalformedReadId(keys[i]))
  {
    SplitAllSpec(keys);
    if SplitAll(keys).Success? {
      assert false;
    }
    var k :| 0 <= k < |keys| && SplitKey(keys[k]).None? && SplitAll(keys).error == MalformedReadId(keys[k])
             && forall j :: 0 <= j < k ==> SplitKey(keys[j]).Some?;
    assert k == i;
  }

  /** k is a key of the input, and the last one naming its read id. */
  predicate LastKeyFor(keys: seq<string>, k: string)
  {
    exists j :: 0 <= j < |keys| && keys[j] == k && forall l :: j < l < |keys| ==> ReadBase(keys[l]) != ReadBase(k)
  }

  /** What a read id of a successful sort rejoins to: the last input key
      that names it. */
  lemma Rejoined(keys: seq<string>, b: string)
    requires SplitAll(keys).Success? && b in Bases(SplitAll(keys).value)
    ensures var primes := Primes(SplitAll(keys).value);
            b in primes && ReadBase(b + "." + primes[b]) == b
            && LastKeyFor(keys, b + "." + primes[b])
  {
    var ps := SplitAll(keys).value;
    PrimesKeys(ps);
    PrimesLast(ps, b);
    var j :| 0 <= j < |ps| && ps[j].0 == b && Primes(ps)[b] == ps[j].1 && forall l :: j < l < |ps| ==> ps[l].0 != b;
    KeyOfSplit(keys, j);
    BasesOfSplit(keys);
  }

  /** A key of a successful split is its two names joined by a dot. */
  lemma KeyOfSplit(keys: seq<string>, i: nat)
    requires SplitAll(keys).Success? && i < |keys|
    ensures keys[i] == SplitAll(keys).value[i].0 + "." + SplitAll(keys).value[i].1
    ensures ReadBase(keys[i]) == SplitAll(keys).value[i].0
  {
    SplitAllSpec(keys);
    assert SplitKey(keys[i]) == Some(SplitAll(keys).value[i]);
  }

  /** The read id of each key of a successful split is its first name. */
  lemma BasesOfSplit(keys: seq<string>)
    requires SplitAll(keys).Success?
    ensures forall i :: 0 <= i < |keys| ==> ReadBase(keys[i]) == SplitAll(keys).value[i].0
  {
    forall i | 0 <= i < |keys| ensures ReadBase(keys[i]) == SplitAll(keys).value[i].0 {
      KeyOfSplit(keys, i);
    }
  }

  /** The facts behind the result of a successful sort. */
  lemma SortedFacts(keys: seq<string>)
    requires SortedReadIds(keys).Success?
    ensures SplitAll(keys).Success?
    ensures var ps := SplitAll(keys).value;
            (forall i :: 0 <= i < |ps| ==> IsInt(Bases(ps)[i]))
            && (forall i :: 0 <= i < |SortedBases(Bases(ps))| ==> SortedBases(Bases(ps))[i] in Primes(ps))
            && SortedReadIds(keys).value == Rejoin(SortedBases(Bases(ps)), Primes(ps))
  {
    SortedBasesKnown(SplitAll(keys).value);
  }

  /** The read ids of a successful sort's keys are the sorted read ids. */
  lemma SortedReadIdBases(keys: seq<string>)
    requires SortedReadIds(keys).Success?
    ensures SplitAll(keys).Success?
    ensures var ps := SplitAll(keys).value;
            (forall i :: 0 <= i < |ps| ==> IsInt(Bases(ps)[i]))
            && Map(ReadBase, SortedReadIds(keys).value) == SortedBases(Bases(ps))
  {
    SortedFacts(keys);
    var ps := SplitAll(keys).value;
    var sorted := SortedBases(Bases(ps));
    SortedBasesFacts(Bases(ps));
    var r := SortedReadIds(keys).value;
    forall i | 0 <= i < |r| ensures ReadBase(r[i]) == sorted[i] {
      assert sorted[i] in multiset(Bases(ps));
      Rejoined(keys, sorted[i]);
    }
  }

  /** The read ids of a successful split are the keys' read ids. */
  lemma SplitBases(keys: seq<string>)
    requires SplitAll(keys).Success?
    ensures Map(ReadBase, keys) == Bases(SplitAll(keys).value)
  {
    BasesOfSplit(keys);
  }

  /** The keys of a successful sort carry the input's read ids, each as
      often as in the input, and each key is the last input key naming its
      read id: a duplicated read id comes out twice, both times with the
      terminus of its last key. */
  lemma SortedReadIdsLastKey(keys: seq<string>)
    requires SortedReadIds(keys).Success?
    ensures var r := SortedReadIds(keys).value;
            |r| == |keys|
            && multiset(Map(ReadBase, r)) == multiset(Map(ReadBase, keys))
            && forall i :: 0 <= i < |r| ==> LastKeyFor(keys, r[i])
  {
    SortedFacts(keys);
    var ps := SplitAll(keys).value;
    var sorted := SortedBases(Bases(ps));
    SortedBasesFacts(Bases(ps));
    var r := SortedReadIds(keys).value;
    forall i | 0 <= i < |r| ensures LastKeyFor(keys, r[i]) {
      assert sorted[i] in multiset(Bases(ps));
      Rejoined(keys, sorted[i]);
    }
    SortedReadIdBases(keys);
    SplitBases(keys);
  }

  /** The returned keys ascend by the integer value of their read id. */
  lemma SortedReadIdsAscending(keys: seq<string>, i: nat, j: nat)
    requires SortedReadIds(keys).Success? && i < j < |SortedReadIds(keys).value|
    ensures IsInt(ReadBase(SortedReadIds(keys).value[i])) && IsInt(ReadBase(SortedReadIds(keys).value[j]))
    ensures IntOf(ReadBase(SortedReadIds(keys).value[i])) <= IntOf(ReadBase(SortedReadIds(keys).value[j]))
  {
    SortedFacts(keys);
    var ps := SplitAll(keys).value;
    var sorted := SortedBases(Bases(ps));
    SortedBasesFacts(Bases(ps));
    assert sorted[i] in multiset(Bases(ps)) && sorted[j] in multiset(Bases(ps));
    Rejoined(keys, sorted[i]);
    Rejoined(keys, sorted[j]);
  }

  /** With distinct read ids every key is its read id joined to its entry. */
  lemma DistinctKeysRejoin(keys: seq<string>)
    requires SplitAll(keys).Success?
    requires forall i, j :: 0 <= i < j < |keys| ==> ReadBase(keys[i]) != ReadBase(keys[j])
    ensures var ps := SplitAll(keys).value;
            (forall i :: 0 <= i < |ps| ==> Bases(ps)[i] in Primes(ps))
            && keys == Rejoin(Bases(ps), Primes(ps))
  {
    SplitAllSpec(keys);
    var ps := SplitAll(keys).value;
    forall i | 0 <= i < |ps| ensures ps[i].0 in Primes(ps) && keys[i] == ps[i].0 + "." + Primes(ps)[ps[i].0] {
      assert SplitKey(keys[i]) == Some(ps[i]);
      forall l | i < l < |ps| ensures ps[l].0 != ps[i].0 {
        assert SplitKey(keys[l]) == Some(ps[l]);
      }
      PrimesOfLast(ps, i);
    }
  }

  /** With distinct read ids the result is a rearrangement of the input keys. */
  lemma SortedReadIdsPermutation(keys: seq<string>)
    requires SortedReadIds(keys).Success?
    requires forall i, j :: 0 <= i < j < |keys| ==> ReadBase(keys[i]) != ReadBase(keys[j])
    ensures multiset(SortedReadIds(keys).value) == multiset(keys)
  {
    SortedFacts(keys);
    var ps := SplitAll(keys).value;
    DistinctKeysRejoin(keys);
    SortedBasesFacts(Bases(ps));
    MapPerm(JoinPrime(Primes(ps)), Bases(ps), SortedBases(Bases(ps)));
  }

  // ---------------------------------------------------------------------
  // extract_sequence and the LTR slice

  /** How far both slice bounds move left: one position for the (+, 5') and
      (non-+, 3') cases, none for the other two. */
  function FlankShift(strand: string, prime: string): (k: int)
    ensures k == 0 || k == 1
    ensures k == 1 <==> (strand == "+" && prime == FIVE_PRIME) || (strand != "+" && prime == THREE_PRIME)
  {
    if (strand == "+") == (prime == FIVE_PRIME) && (prime == FIVE_PRIME || prime == THREE_PRIME) then 1 else 0
  }

  /** extract_sequence: the flank cut out of a read's sequence. */
  function ExtractFlank(sequence: string, strand: string, prime: string, seqFrom: int, seqTo: int): string
  {
    if strand == "+" then
      if prime == FIVE_PRIME then PySlice(sequence, seqFrom - 1, seqTo - 1)
      else PySlice(sequence, seqFrom, seqTo)
    else
      if prime == THREE_PRIME then PySlice(sequence, seqFrom - 1, seqTo - 1)
      else PySlice(sequence, seqFrom, seqTo)
  }

  /** The flank is the slice [seq_from - k, seq_to - k) for the shift k of
      its strand and terminus; every strand other than + is the reverse one. */
  lemma FlankIsShiftedSlice(sequence: string, strand: string, prime: string, seqFrom: int, seqTo: int)
    ensures var k := FlankShift(strand, prime);
            ExtractFlank(sequence, strand, prime, seqFrom, seqTo) == PySlice(sequence, seqFrom - k, seqTo - k)
    ensures strand != "+" ==>
              ExtractFlank(sequence, strand, prime, seqFrom, seqTo) == ExtractFlank(sequence, "-", prime, seqFrom, seqTo)
  {
  }

  /** Inside the sequence the flank has exactly seq_to - seq_from characters,
      those from position seq_from - k on. */
  lemma FlankLength(sequence: string, strand: string, prime: string, seqFrom: int, seqTo: int)
    requires var k := FlankShift(strand, prime); 0 <= seqFrom - k <= seqTo - k <= |sequence|
    ensures var k := FlankShift(strand, prime);
            var r := ExtractFlank(sequence, strand, prime, seqFrom, seqTo);
            |r| == seqTo - seqFrom && r == sequence[seqFrom - k..seqTo - k]
  {
    FlankIsShiftedSlice(sequence, strand, prime, seqFrom, seqTo);
  }

  /** `sequence[ltr_from - 1:ltr_to]`: the LTR, from 1-indexed position
      ltr_from up to and including position ltr_to. */
  function LtrSlice(sequence: string, ltrFrom: int, ltrTo: int): string
  {
    PySlice(sequence, ltrFrom - 1, ltrTo)
  }

  /** For positions inside the sequence the LTR slice is inclusive at both
      ends, 1-indexed. */
  lemma LtrInclusive(sequence: string, ltrFrom: int, ltrTo: int)
    requires 1 <= ltrFrom <= ltrTo <= |sequence|
    ensures var r := LtrSlice(sequence, ltrFrom, ltrTo);
            |r| == ltrTo - ltrFrom + 1 && r[0] == sequence[ltrFrom - 1] && r[|r| - 1] == sequence[ltrTo - 1]
            && forall j :: 0 <= j < |r| ==> r[j] == sequence[ltrFrom - 1 + j]
  {
  }

  // ---------------------------------------------------------------------
  // The lookup in main: one cursor over the FASTA lines

  /** Where `$` may match: before a final newline, or at the end. */
  function LineEnd(s: string): (e: nat)
    ensures e <= |s|
  {
    if |s| > 0 && s[|s| - 1] == '\n' then |s| - 1 else |s|
  }

  /** The regex _(\d+)$ tried at position p: the digits run must reach the
      end of the line, as `$` cannot match inside it. */
  function ReadIdAt(s: string, p: nat): Option<string>
  {
    var e := LineEnd(s);
    if p + 1 < e && s[p] == '_' && AllDigits(s[p + 1..e]) then Some(s[p + 1..e]) else None
  }

  /** read_id_re.search(line): the read number a FASTA header ends in. */
  function ReadIdOf(line: string): Option<string>
  {
    FirstMatch(line, 0, ReadIdAt)
  }

  /** A header ending in _<digits>, with or without its newline, yields
      those digits, whatever precedes the underscore. */
  lemma ReadIdOfHeader(prefix: string, digits: string, newline: string)
    requires |digits| > 0 && AllDigits(digits) && (newline == "" || newline == "\n")
    ensures ReadIdOf(prefix + "_" + digits + newline) == Some(digits)
  {
    var s := prefix + "_" + digits + newline;
    var p := |prefix|;
    assert LineEnd(s) == p + 1 + |digits|;
    assert s[p] == '_';
    assert s[p + 1..p + 1 + |digits|] == digits;
    forall q | 0 <= q < p ensures ReadIdAt(s, q).None? {
      assert q + 1 < LineEnd(s) ==> s[q + 1..LineEnd(s)][p - q - 1] == '_';
    }
    FirstMatchAt(s, 0, p, ReadIdAt);
  }

  /** What a match says about the line: it ends, before any final newline,
      in an underscore and the digits found. */
  lemma ReadIdOfMatch(line: string)
    requires ReadIdOf(line).Some?
    ensures var d := ReadIdOf(line).value;
            var e := LineEnd(line);
            |d| > 0 && AllDigits(d) && |d| < e && line[e - |d|..e] == d && line[e - |d| - 1] == '_'
  {
    FirstMatchLeftmost(line, 0, ReadIdAt);
  }

  /** What one pass of `for line in in_file` finds for a read id, from the
      cursor pos on: the line after the first header for it and the cursor
      after that line; nothing, when no header for it is left (the pass then
      exhausts the file); or StopIteration from next() when that header is
      the file's last line. */
  datatype Lookup = Found(sequence: string, next: nat) | NotFound | Truncated

  function Seek(lines: seq<string>, pos: nat, base: string): (r: Lookup)
    requires pos <= |lines|
    ensures r.Found? ==> pos + 2 <= r.next <= |lines|
    decreases |lines| - pos
  {
    if pos == |lines| then NotFound
    else if ReadIdOf(lines[pos]) == Some(base) then
      if pos + 1 < |lines| then Found(lines[pos + 1], pos + 2) else Truncated
    else Seek(lines, pos + 1, base)
  }

  /** Seek finds the first header for the read at or after the cursor. */
  lemma {:induction false} SeekFound(lines: seq<string>, pos: nat, base: string)
    requires pos <= |lines| && Seek(lines, pos, base).Found?
    ensures var r := Seek(lines, pos, base);
            ReadIdOf(lines[r.next - 2]) == Some(base) && r.sequence == lines[r.next - 1]
            && forall j :: pos <= j < r.next - 2 ==> ReadIdOf(lines[j]) != Some(base)
    decreases |lines| - pos
  {
    if ReadIdOf(lines[pos]) != Some(base) {
      SeekFound(lines, pos + 1, base);
    }
  }

  /** Seek finds nothing exactly when no header for the read lies at or after
      the cursor: a read whose headers all precede the cursor is never found. */
  lemma {:induction false} SeekNotFound(lines: seq<string>, pos: nat, base: string)
    requires pos <= |lines|
    ensures Seek(lines, pos, base).NotFound? <==> forall j :: pos <= j < |lines| ==> ReadIdOf(lines[j]) != Some(base)
    decreases |lines| - pos
  {
    if pos < |lines| && ReadIdOf(lines[pos]) != Some(base) {
      SeekNotFound(lines, pos + 1, base);
    }
  }

  /** Seek runs out of lines exactly when the first header for the read at or
      after the cursor is the last line. */
  lemma {:induction false} SeekTruncated(lines: seq<string>, pos: nat, base: string)
    requires pos <= |lines|
    ensures Seek(lines, pos, base).Truncated? <==>
              pos < |lines| && ReadIdOf(lines[|lines| - 1]) == Some(base)
              && forall j :: pos <= j < |lines| - 1 ==> ReadIdOf(lines[j]) != Some(base)
    decreases |lines| - pos
  {
    if pos < |lines| && ReadIdOf(lines[pos]) != Some(base) {
      SeekTruncated(lines, pos + 1, base);
    }
  }

  /** The inner `for line in in_file` loop, from the cursor on. */
  method FindRead(lines: seq<string>, pos: nat, base: string) returns (r: Lookup)
    requires pos <= |lines|
    ensures r == Seek(lines, pos, base)
  {
    var i := pos;
    while i < |lines|
      invariant pos <= i <= |lines|
      invariant Seek(lines, pos, base) == Seek(lines, i, base)
    {
      var m := ReadIdOf(lines[i]);
      if m.Some? && m.value == base {
        if i + 1 < |lines| {
          return Found(lines[i + 1], i + 2);
        }
        return Truncated;
      }
      i := i + 1;
    }
    return NotFound;
  }

  /** The entry once its read's sequence line is known: the flank with its
      trailing whitespace stripped, and the LTR as sliced from the line as
      read, so it can end in the line's '\n'. An empty sequence (which
      `if sequence` rejects) changes nothing; iterating over a file never
      yields one, since every line but a final unterminated one keeps its
      '\n' and that last line is never empty. */
  function WithSequence(e: ReadEntry, sequence: string): (r: ReadEntry)
    ensures |sequence| > 0 ==>
              r == e.(extracted := Some(RStrip(ExtractFlank(sequence, e.strand, e.prime, e.seqFrom, e.seqTo))),
                      ltrSequence := Some(LtrSlice(sequence, e.ltrFrom, e.ltrTo)))
    ensures |sequence| == 0 ==> r == e
  {
    if |sequence| > 0 then
      var ltr := LtrSlice(sequence, e.ltrFrom, e.ltrTo);
      var flank := ExtractFlank(sequence, e.strand, e.prime, e.seqFrom, e.seqTo);
      e.(extracted := Some(RStrip(flank)), ltrSequence := Some(ltr))
    else e
  }

  /** b is a with at most its two sequence fields changed. */
  predicate SameHit(a: ReadEntry, b: ReadEntry)
  {
    a.(extracted := b.extracted, ltrSequence := b.ltrSequence) == b
  }

  /** One turn of main's loop over the sorted keys: look the read up from
      the cursor and store what its sequence line gives. The new cursor is
      where the lookup stopped: after the sequence line, or at the end of the
      file when the pass found nothing. */
  function AttachOne(entries: map<string, ReadEntry>, id: string, lines: seq<string>, pos: nat): (r: Result<(map<string, ReadEntry>, nat)>)
    requires id in entries && pos <= |lines|
    ensures r.Success? ==> r.value.0.Keys == entries.Keys && pos <= r.value.1 <= |lines|
    ensures r.Success? ==> SameHit(r.value.0[id], entries[id])
                           && forall k :: k in entries && k != id ==> r.value.0[k] == entries[k]
  {
    match Seek(lines, pos, ReadBase(id))
    case Truncated => Failure(MissingSequenceLine)
    case NotFound => Success((entries, |lines|))
    case Found(s, next) => Success((entries[id := WithSequence(entries[id], s)], next))
  }

  /** main's loop over the sorted keys, from cursor pos on. */
  function Attach(entries: map<string, ReadEntry>, ids: seq<string>, lines: seq<string>, pos: nat): (r: Result<map<string, ReadEntry>>)
    requires forall i :: 0 <= i < |ids| ==> ids[i] in entries
    requires pos <= |lines|
    ensures r.Success? ==> r.value.Keys == entries.Keys
    decreases |ids|
  {
    if ids == [] then Success(entries)
    else
      match AttachOne(entries, ids[0], lines, pos)
      case Failure(e) => Failure(e)
      case Success(step) => Attach(step.0, ids[1..], lines, step.1)
  }

  /** Once the cursor is at the end of the file no read is found any more:
      the remaining entries are left as they are. */
  lemma {:induction false} AttachAtEnd(entries: map<string, ReadEntry>, ids: seq<string>, lines: seq<string>)
    requires forall i :: 0 <= i < |ids| ==> ids[i] in entries
    ensures Attach(entries, ids, lines, |lines|) == Success(entries)
    decreases |ids|
  {
    if ids != [] {
      AttachAtEnd(entries, ids[1..], lines);
    }
  }

  /** Only the two sequence fields of an entry ever change, and an entry
      whose key is not looked up does not change at all. */
  lemma {:induction false} AttachKeepsHits(entries: map<string, ReadEntry>, ids: seq<string>, lines: seq<string>, pos: nat, k: string)
    requires forall i :: 0 <= i < |ids| ==> ids[i] in entries
    requires pos <= |lines| && Attach(entries, ids, lines, pos).Success? && k in entries
    ensures SameHit(Attach(entries, ids, lines, pos).value[k], entries[k])
    ensures k !in ids ==> Attach(entries, ids, lines, pos).value[k] == entries[k]
    decreases |ids|
  {
    if ids != [] {
      var step := AttachOne(entries, ids[0], lines, pos).value;
      AttachKeepsHits(step.0, ids[1..], lines, step.1, k);
      assert k !in ids ==> k !in ids[1..];
    }
  }

  /** Every key sort_read_ids returns names an entry of the document. */
  lemma SortedIdsAreKeys(f: HitFile)
    requires ValidFile(f) && SortedReadIds(f.keys).Success?
    ensures forall i :: 0 <= i < |SortedReadIds(f.keys).value| ==> SortedReadIds(f.keys).value[i] in f.entries
  {
    SortedReadIdsLastKey(f.keys);
    forall i | 0 <= i < |SortedReadIds(f.keys).value| ensures SortedReadIds(f.keys).value[i] in f.entries {
      assert LastKeyFor(f.keys, SortedReadIds(f.keys).value[i]);
    }
  }

  /** What main does with one document and the lines of its FASTA file. */
  function ExtractedFile(f: HitFile, fasta: seq<string>): (r: Result<HitFile>)
    requires ValidFile(f)
    ensures r.Success? ==> ValidFile(r.value) && r.value.name == f.name && r.value.keys == f.keys
  {
    match SortedReadIds(f.keys)
    case Failure(e) => Failure(e)
    case Success(ids) =>
      SortedIdsAreKeys(f);
      match Attach(f.entries, ids, fasta, 0)
      case Failure(e) => Failure(e)
      case Success(entries) => Success(f.(entries := entries))
  }

  /** The body of main's loop over the sorted keys: read the entry's fields,
      run the inner loop from the shared cursor, and store the flank and the
      LTR when a non-empty sequence line was found. */
  method StoreRead(entries: map<string, ReadEntry>, id: string, lines: seq<string>, cursor: nat) returns (r: Result<(map<string, ReadEntry>, nat)>)
    requires id in entries && cursor <= |lines|
    ensures r == AttachOne(entries, id, lines, cursor)
  {
    var e := entries[id];
    var base := Split(id, '.')[0];
    var found := FindRead(lines, cursor, base);
    if found.Truncated? {
      return Failure(MissingSequenceLine);
    }
    if found.NotFound? {
      return Success((entries, |lines|));
    }
    var sequence := found.sequence;
    var updated := entries;
    if |sequence| > 0 {
      var ltr := LtrSlice(sequence, e.ltrFrom, e.ltrTo);
      var flank := ExtractFlank(sequence, e.strand, e.prime, e.seqFrom, e.seqTo);
      updated := entries[id := e.(extracted := Some(RStrip(flank)), ltrSequence := Some(ltr))];
    }
    assert updated == entries[id := WithSequence(e, sequence)];
    return Success((updated, found.next));
  }

  /** main's loop for one document: sort the keys, then for each key look its
      read up from the shared cursor and store the flank and the LTR. */
  method ExtractFile(f: HitFile, fasta: seq<string>) returns (r: Result<HitFile>)
    requires ValidFile(f)
    ensures r == ExtractedFile(f, fasta)
  {
    var sorted := SortReadIds(f.keys);
    if sorted.Failure? {
      return Failure(sorted.error);
    }
    var ids := sorted.value;
    SortedIdsAreKeys(f);
    var entries := f.entries;
    var cursor: nat := 0;
    var n := 0;
    while n < |ids|
      invariant 0 <= n <= |ids| && cursor <= |fasta|
      invariant entries.Keys == f.entries.Keys
      invariant Attach(f.entries, ids, fasta, 0) == Attach(entries, ids[n..], fasta, cursor)
    {
      assert ids[n..][0] == ids[n] && ids[n..][1..] == ids[n + 1..];
      var step := StoreRead(entries, ids[n], fasta, cursor);
      if step.Failure? {
        return Failure(step.error);
      }
      entries, cursor := step.value.0, step.value.1;
      n := n + 1;
    }
    r := Success(f.(entries := entries));
  }
}
