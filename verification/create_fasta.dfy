/** create_fasta_from_json.py: each read's flank and LTR joined in the order
    its strand and terminus call for, the reads with exactly 50 bp of flank
    turned into FASTA records, and the records written one after the other. */
module CreateFasta {
  import opened Common
  import opened HitTable

  // ---------------------------------------------------------------------
  // concat_ltr_seq

  /** Whether the flank comes before the LTR: for a 5' hit on the forward
      strand and for a hit that is not 5' on any other strand. */
  predicate FlankFirst(strand: string, prime: string)
  {
    (strand == "+") == (prime == FIVE_PRIME)
  }

  /** concat_ltr_seq: the LTR and the flank joined in one of the two orders. */
  function ConcatLtrSeq(strand: string, prime: string, ltr: string, sequence: string): (r: string)
    ensures |r| == |ltr| + |sequence|
    ensures r == sequence + ltr || r == ltr + sequence
  {
    if strand == "+" then
      if prime == FIVE_PRIME then sequence + ltr else ltr + sequence
    else
      if prime == FIVE_PRIME then ltr + sequence else sequence + ltr
  }

  /** The flank comes first exactly in the (+, 5') and (non-+, non-5') cases. */
  lemma ConcatOrder(strand: string, prime: string, ltr: string, sequence: string)
    ensures ConcatLtrSeq(strand, prime, ltr, sequence) == if FlankFirst(strand, prime) then sequence + ltr else ltr + sequence
  {
  }

  /** The two strands put the LTR on opposite sides of the flank. */
  lemma ConcatStrandsOpposite(prime: string, ltr: string, sequence: string)
    ensures {ConcatLtrSeq("+", prime, ltr, sequence), ConcatLtrSeq("-", prime, ltr, sequence)} == {sequence + ltr, ltr + sequence}
  {
    ConcatOrder("+", prime, ltr, sequence);
    ConcatOrder("-", prime, ltr, sequence);
  }

  // ---------------------------------------------------------------------
  // extract_from_json

  datatype FastaRecord = FastaRecord(id: string, sequence: string)

  /** strand_dict: the direction names of the two strands. */
  function StrandName(strand: string): (r: Option<string>)
    ensures r.Some? <==> strand == "+" || strand == "-"
  {
    if strand == "+" then Some("forward") else if strand == "-" then Some("reverse") else None
  }

  /** The exact-50 filter: both sequence fields are present, the flank window
      is exactly 50 positions wide and the stored flank is not empty. */
  predicate Emits(e: ReadEntry)
  {
    e.ltrSequence.Some? && e.extracted.Some? && e.seqTo - e.seqFrom == 50 && |e.extracted.value| > 0
  }

  /** One turn of the inner loop: the record a read contributes, none when
      the filter rejects it, or the KeyError of a missing sequence field or of
      a strand the table does not name. */
  function RecordOf(name: string, key: string, e: ReadEntry): (r: Result<Option<FastaRecord>>)
  {
    match e.ltrSequence
    case None => Failure(MissingField("LTR_sequence"))
    case Some(ltr) =>
      match e.extracted
      case None => Failure(MissingField("extracted_sequence"))
      case Some(flank) =>
        if e.seqTo - e.seqFrom == 50 && |flank| > 0 then
          match StrandName(e.strand)
          case None => Failure(UnknownStrand(e.strand))
          case Some(direction) =>
            Success(Some(FastaRecord(name + "." + key + "." + direction, ConcatLtrSeq(e.strand, e.prime, ltr, flank))))
        else Success(None)
  }

  /** A read yields a record exactly when it passes the filter and its strand
      is + or -; the record's id names the file, the key and the direction,
      and its sequence is the LTR and the flank in strand order. */
  lemma RecordOfEmits(name: string, key: string, e: ReadEntry)
    ensures (RecordOf(name, key, e).Success? && RecordOf(name, key, e).value.Some?) <==>
              Emits(e) && (e.strand == "+" || e.strand == "-")
    ensures RecordOf(name, key, e).Success? && RecordOf(name, key, e).value.Some? ==>
              RecordOf(name, key, e).value.value ==
                FastaRecord(name + "." + key + "." + (if e.strand == "+" then "forward" else "reverse"),
                            ConcatLtrSeq(e.strand, e.prime, e.ltrSequence.value, e.extracted.value))
  {
  }

  /** A strand outside {+, -} is an error only for a read the filter keeps. */
  lemma RecordOfStrandError(name: string, key: string, e: ReadEntry)
    requires e.ltrSequence.Some? && e.extracted.Some?
    ensures RecordOf(name, key, e).Failure? <==> Emits(e) && e.strand != "+" && e.strand != "-"
    ensures RecordOf(name, key, e).Failure? ==> RecordOf(name, key, e).error == UnknownStrand(e.strand)
  {
  }

  /** A read without its LTR or its flank is an error, the LTR checked first. */
  lemma RecordOfMissing(name: string, key: string, e: ReadEntry)
    requires e.ltrSequence.None? || e.extracted.None?
    ensures RecordOf(name, key, e) == Failure(MissingField(if e.ltrSequence.None? then "LTR_sequence" else "extracted_sequence"))
  {
  }

  /** What one read adds to the output list. */
  function KeyRecords(f: HitFile, key: string): (r: Result<seq<FastaRecord>>)
    requires key in f.entries
    ensures r.Success? ==> |r.value| <= 1
  {
    match RecordOf(f.name, key, f.entries[key])
    case Failure(e) => Failure(e)
    case Success(None) => Success([])
    case Success(Some(rec)) => Success([rec])
  }

  /** How two results are put one after the other: the first failure wins. */
  function Then(a: Result<seq<FastaRecord>>, b: Result<seq<FastaRecord>>): (r: Result<seq<FastaRecord>>)
    ensures r.Success? <==> a.Success? && b.Success?
    ensures r.Success? ==> r.value == a.value + b.value
    ensures a.Failure? ==> r == a
  {
    match a
    case Failure(e) => Failure(e)
    case Success(x) =>
      match b
      case Failure(e) => Failure(e)
      case Success(y) => Success(x + y)
  }

  lemma ThenAssoc(x: Result<seq<FastaRecord>>, y: Result<seq<FastaRecord>>, z: Result<seq<FastaRecord>>)
    ensures Then(Then(x, y), z) == Then(x, Then(y, z))
  {
    if x.Success? && y.Success? && z.Success? {
      assert x.value + y.value + z.value == x.value + (y.value + z.value);
    }
  }

  lemma ThenNothing(x: Result<seq<FastaRecord>>)
    ensures Then(x, Success([])) == x && Then(Success([]), x) == x
  {
    if x.Success? {
      assert x.value + [] == x.value && [] + x.value == x.value;
    }
  }

  /** The inner loop over the first keys of one document. */
  function DocRecords(f: HitFile, keys: seq<string>): (r: Result<seq<FastaRecord>>)
    requires forall i :: 0 <= i < |keys| ==> keys[i] in f.entries
    ensures r.Success? ==> |r.value| <= |keys|
  {
    if keys == [] then Success([])
    else Then(DocRecords(f, keys[..|keys| - 1]), KeyRecords(f, keys[|keys| - 1]))
  }

  /** The records of a run of keys are those of its two halves, in order. */
  lemma {:induction false} DocRecordsAppend(f: HitFile, a: seq<string>, b: seq<string>)
    requires forall i :: 0 <= i < |a| ==> a[i] in f.entries
    requires forall i :: 0 <= i < |b| ==> b[i] in f.entries
    ensures forall i :: 0 <= i < |a + b| ==> (a + b)[i] in f.entries
    ensures DocRecords(f, a + b) == Then(DocRecords(f, a), DocRecords(f, b))
    decreases |b|
  {
    assert forall i :: 0 <= i < |a + b| ==> (a + b)[i] == if i < |a| then a[i] else b[i - |a|];
    if b == [] {
      assert a + b == a;
      ThenNothing(DocRecords(f, a));
    } else {
      var b' := b[..|b| - 1];
      assert (a + b)[..|a + b| - 1] == a + b';
      DocRecordsAppend(f, a, b');
      ThenAssoc(DocRecords(f, a), DocRecords(f, b'), KeyRecords(f, b[|b| - 1]));
    }
  }

  /** The number of reads in all documents together. */
  function EntryCount(docs: seq<HitFile>): nat
  {
    if docs == [] then 0 else EntryCount(docs[..|docs| - 1]) + |docs[|docs| - 1].keys|
  }

  /** extract_from_json: every document's records, documents in list order
      and reads in key order, each document processed under its one name. */
  function AllRecords(docs: seq<HitFile>): (r: Result<seq<FastaRecord>>)
    requires forall i :: 0 <= i < |docs| ==> KeysListed(docs[i])
    ensures r.Success? ==> |r.value| <= EntryCount(docs)
  {
    if docs == [] then Success([])
    else
      var d := docs[|docs| - 1];
      assert KeysListed(d);
      Then(AllRecords(docs[..|docs| - 1]), DocRecords(d, d.keys))
  }

  /** The records of a list of documents are those of its two parts, in
      order: nothing is dropped, merged or reordered across documents. */
  lemma {:induction false} AllRecordsAppend(a: seq<HitFile>, b: seq<HitFile>)
    requires forall i :: 0 <= i < |a| ==> KeysListed(a[i])
    requires forall i :: 0 <= i < |b| ==> KeysListed(b[i])
    ensures forall i :: 0 <= i < |a + b| ==> KeysListed((a + b)[i])
    ensures AllRecords(a + b) == Then(AllRecords(a), AllRecords(b))
    decreases |b|
  {
    assert forall i :: 0 <= i < |a + b| ==> (a + b)[i] == if i < |a| then a[i] else b[i - |a|];
    if b == [] {
      assert a + b == a;
      ThenNothing(AllRecords(a));
    } else {
      var b' := b[..|b| - 1];
      assert (a + b)[..|a + b| - 1] == a + b';
      AllRecordsAppend(a, b');
      var d := b[|b| - 1];
      assert KeysListed(d);
      ThenAssoc(AllRecords(a), AllRecords(b'), DocRecords(d, d.keys));
    }
  }

  /** A failing document stops the list: later documents are never read. */
  lemma {:induction false} AllRecordsStop(docs: seq<HitFile>, n: nat)
    requires forall i :: 0 <= i < |docs| ==> KeysListed(docs[i])
    requires n <= |docs| && AllRecords(docs[..n]).Failure?
    ensures AllRecords(docs) == AllRecords(docs[..n])
    decreases |docs| - n
  {
    if n == |docs| {
      assert docs[..n] == docs;
    } else {
      assert docs[..n + 1][..n] == docs[..n];
      AllRecordsStop(docs, n + 1);
    }
  }

  /** One document's records from the keys of the dictionary under its name. */
  lemma AllRecordsOne(d: HitFile)
    requires KeysListed(d)
    ensures AllRecords([d]) == DocRecords(d, d.keys)
  {
    assert [d][..0] == [];
    ThenNothing(DocRecords(d, d.keys));
  }

  /** A failure stops the document: later keys are never looked at. */
  lemma DocRecordsFailure(f: HitFile, a: seq<string>, b: seq<string>)
    requires forall i :: 0 <= i < |a| ==> a[i] in f.entries
    requires forall i :: 0 <= i < |b| ==> b[i] in f.entries
    requires DocRecords(f, a).Failure?
    ensures forall i :: 0 <= i < |a + b| ==> (a + b)[i] in f.entries
    ensures DocRecords(f, a + b) == DocRecords(f, a)
  {
    DocRecordsAppend(f, a, b);
  }

  /** The first read that fails stops the whole document with its error. */
  lemma DocRecordsStop(f: HitFile, keys: seq<string>, j: nat)
    requires forall i :: 0 <= i < |keys| ==> keys[i] in f.entries
    requires j < |keys| && KeyRecords(f, keys[j]).Failure? && DocRecords(f, keys[..j]).Success?
    ensures DocRecords(f, keys) == KeyRecords(f, keys[j])
  {
    var a, b := keys[..j + 1], keys[j + 1..];
    assert a[..j] == keys[..j] && a[j] == keys[j];
    DocRecordsFailure(f, a, b);
    assert a + b == keys;
  }

  /** The inner loop of extract_from_json over one document, appending to
      the records collected so far. */
  method DocumentRecords(f: HitFile, processed: seq<FastaRecord>) returns (r: Result<seq<FastaRecord>>)
    requires KeysListed(f)
    ensures r == Then(Success(processed), DocRecords(f, f.keys))
  {
    var out := processed;
    var j := 0;
    while j < |f.keys|
      invariant 0 <= j <= |f.keys|
      invariant DocRecords(f, f.keys[..j]).Success? && out == processed + DocRecords(f, f.keys[..j]).value
    {
      var key := f.keys[j];
      assert f.keys[..j + 1][..j] == f.keys[..j];
      var rec := RecordOf(f.name, key, f.entries[key]);
      if rec.Failure? {
        DocRecordsStop(f, f.keys, j);
        return Failure(rec.error);
      }
      if rec.value.Some? {
        out := out + [rec.value.value];
      }
      j := j + 1;
    }
    assert f.keys[..|f.keys|] == f.keys;
    return Success(out);
  }

  /** extract_from_json, as its nested loops run. */
  method ExtractFromJson(docs: seq<HitFile>) returns (r: Result<seq<FastaRecord>>)
    requires forall i :: 0 <= i < |docs| ==> KeysListed(docs[i])
    ensures r == AllRecords(docs)
  {
    var processed: seq<FastaRecord> := [];
    var i := 0;
    while i < |docs|
      invariant 0 <= i <= |docs|
      invariant AllRecords(docs[..i]) == Success(processed)
    {
      assert docs[..i + 1][..i] == docs[..i];
      var step := DocumentRecords(docs[i], processed);
      if step.Failure? {
        AllRecordsStop(docs, i + 1);
        return Failure(step.error);
      }
      processed := step.value;
      i := i + 1;
    }
    assert docs[..|docs|] == docs;
    return Success(processed);
  }

  // ---------------------------------------------------------------------
  // write_to_file

  /** The two lines write_to_file emits for a record. */
  function Entry(rec: FastaRecord): string
  {
    ">" + rec.id + "\n" + rec.sequence + "\n"
  }

  /** The text appended to extracted_sequences.fa for a list of records. */
  function Serialize(recs: seq<FastaRecord>): string
  {
    if recs == [] then "" else Entry(recs[0]) + Serialize(recs[1..])
  }

  lemma {:induction false} SerializeAppend(a: seq<FastaRecord>, b: seq<FastaRecord>)
    ensures Serialize(a + b) == Serialize(a) + Serialize(b)
  {
    if a == [] {
      assert a + b == b;
    } else {
      assert (a + b)[1..] == a[1..] + b;
      SerializeAppend(a[1..], b);
    }
  }

  lemma SerializeSnoc(recs: seq<FastaRecord>, i: nat)
    requires i < |recs|
    ensures Serialize(recs[..i + 1]) == Serialize(recs[..i]) + (">" + recs[i].id + "\n") + (recs[i].sequence + "\n")
  {
    SerializeAppend(recs[..i], [recs[i]]);
    assert recs[..i + 1] == recs[..i] + [recs[i]];
    assert Serialize([recs[i]]) == Entry(recs[i]) + Serialize([]);
  }

  /** write_to_file: the file opened for appending, the records written one
      after the other. */
  method WriteToFile(existing: string, recs: seq<FastaRecord>) returns (contents: string)
    ensures contents == existing + Serialize(recs)
  {
    contents := existing;
    var i := 0;
    while i < |recs|
      invariant 0 <= i <= |recs|
      invariant contents == existing + Serialize(recs[..i])
    {
      SerializeSnoc(recs, i);
      contents := contents + (">" + recs[i].id + "\n");
      contents := contents + (recs[i].sequence + "\n");
      i := i + 1;
    }
    assert recs[..|recs|] == recs;
  }

  /** The lines of the written text: a header line and a sequence line per
      record. */
  function FastaLines(recs: seq<FastaRecord>): (r: seq<string>)
    ensures |r| == 2 * |recs|
  {
    if recs == [] then [] else [">" + recs[0].id, recs[0].sequence] + FastaLines(recs[1..])
  }

  /** Reading records back from header and sequence line pairs. */
  function ParseLines(lines: seq<string>): seq<FastaRecord>
    decreases |lines|
  {
    if |lines| < 2 || |lines[0]| == 0 || lines[0][0] != '>' then []
    else [FastaRecord(lines[0][1..], lines[1])] + ParseLines(lines[2..])
  }

  /** A record whose id and sequence hold no newline. */
  predicate OneLine(rec: FastaRecord)
  {
    '\n' !in rec.id && '\n' !in rec.sequence
  }

  /** A record's two lines, then whatever follows them. */
  lemma EntryLines(rec: FastaRecord, rest: string)
    requires OneLine(rec)
    ensures Split(Entry(rec) + rest, '\n') == [">" + rec.id, rec.sequence] + Split(rest, '\n')
  {
    var h := ">" + rec.id;
    assert '\n' !in h by {
      assert forall j :: 1 <= j < |h| ==> h[j] == rec.id[j - 1];
    }
    assert Entry(rec) + rest == h + ['\n'] + (rec.sequence + ['\n'] + rest);
    SplitCons(h, rec.sequence + ['\n'] + rest, '\n');
    SplitCons(rec.sequence, rest, '\n');
  }

  /** The written text splits at its newlines into the header and sequence
      lines of the records, followed by the empty text after the last newline. */
  lemma {:induction false} SerializeLines(recs: seq<FastaRecord>)
    requires forall i :: 0 <= i < |recs| ==> OneLine(recs[i])
    ensures Split(Serialize(recs), '\n') == FastaLines(recs) + [""]
  {
    if recs == [] {
      assert Split("", '\n') == [""];
    } else {
      assert OneLine(recs[0]);
      assert forall i :: 0 <= i < |recs[1..]| ==> recs[1..][i] == recs[i + 1];
      SerializeLines(recs[1..]);
      EntryLines(recs[0], Serialize(recs[1..]));
    }
  }

  /** Reading the lines back gives the records that were written. */
  lemma {:induction false} ParseSerializedLines(recs: seq<FastaRecord>)
    ensures ParseLines(FastaLines(recs)) == recs
  {
    if recs != [] {
      var lines := FastaLines(recs);
      assert lines[0] == ">" + recs[0].id && lines[1] == recs[0].sequence;
      assert (">" + recs[0].id)[1..] == recs[0].id;
      assert lines[2..] == FastaLines(recs[1..]);
      ParseSerializedLines(recs[1..]);
    }
  }
}
