/** process_results.py: reading a fuzznuc report into per-read hits, finding
    out which LTR terminus the report scanned for, and keeping the hits that
    leave at least 20 bp of read on the side that will later be extracted. */
module ProcessResults {
  import opened Common

  /** The two motifs the pipeline scans for, and the termini they stand for. */
  const THREE_PRIME_MOTIF := "AGGGGCAACCCACCCCTACA"
  const FIVE_PRIME_MOTIF := "TGTGGGGAAAAGCAAGAGAG"

  /** The shortest flank, in bp, a hit must leave on its extracted side. */
  const MIN_FLANK := 20

  // ---------------------------------------------------------------------
  // determine_prime

  /** The regex #\s*-pattern\s*(\S+) tried at position p: the motif it captures. */
  function PatternAt(line: string, p: nat): Option<string>
  {
    if p < |line| && line[p] == '#' then
      var q := p + 1 + SpaceRun(line, p + 1);
      if StartsAt(line, q, "-pattern") then
        var v := q + 8 + SpaceRun(line, q + 8);
        var n := NonSpaceRun(line, v);
        if n > 0 then Some(line[v..v + n]) else None
      else None
    else None
  }

  /** The motif named by a report line's -pattern directive, if it has one. */
  function PatternOf(raw: string): Option<string>
  {
    FirstMatch(RStrip(raw), 0, PatternAt)
  }

  /** The motif named by the first directive line of a report. */
  function FirstPattern(lines: seq<string>): Option<string>
  {
    if lines == [] then None
    else if PatternOf(lines[0]).Some? then PatternOf(lines[0])
    else FirstPattern(lines[1..])
  }

  /** The terminus a motif stands for, or the UserWarning for any other motif. */
  function PrimeOf(pattern: string): (r: Result<string>)
    ensures r == Success(THREE_PRIME) <==> pattern == THREE_PRIME_MOTIF
    ensures r == Success(FIVE_PRIME) <==> pattern == FIVE_PRIME_MOTIF
    ensures r.Failure? <==> pattern != THREE_PRIME_MOTIF && pattern != FIVE_PRIME_MOTIF
    ensures r.Failure? ==> r.error == UnknownPattern(pattern)
  {
    if pattern == THREE_PRIME_MOTIF then Success(THREE_PRIME)
    else if pattern == FIVE_PRIME_MOTIF then Success(FIVE_PRIME)
    else Failure(UnknownPattern(pattern))
  }

  /** determine_prime: scan the lines until the first -pattern directive and
      classify its motif; `pattern` is the value used when no line has one. */
  method DeterminePrime(lines: seq<string>, pattern: string) returns (r: Result<string>)
    ensures r == PrimeOf(FirstPattern(lines).GetOr(pattern))
    ensures r.Success? ==> r.value == FIVE_PRIME || r.value == THREE_PRIME
  {
    var found := pattern;
    var i := 0;
    while i < |lines|
      invariant 0 <= i <= |lines|
      invariant FirstPattern(lines) == FirstPattern(lines[i..])
    {
      var m := PatternOf(lines[i]);
      if m.Some? {
        found := m.value;
        break;
      }
      assert lines[i..][1..] == lines[i + 1..];
      i := i + 1;
    }
    if found == THREE_PRIME_MOTIF {
      r := Success(THREE_PRIME);
    } else if found == FIVE_PRIME_MOTIF {
      r := Success(FIVE_PRIME);
    } else {
      r := Failure(UnknownPattern(found));
    }
  }

  /** The first directive decides: FirstPattern is the motif of line i exactly
      when line i is a directive and no earlier line is. */
  lemma {:induction false} FirstPatternIsFirstDirective(lines: seq<string>, i: nat)
    requires i < |lines| && PatternOf(lines[i]).Some?
    requires forall j :: 0 <= j < i ==> PatternOf(lines[j]).None?
    ensures FirstPattern(lines) == PatternOf(lines[i])
  {
    if i > 0 {
      FirstPatternIsFirstDirective(lines[1..], i - 1);
    }
  }

  /** Without any directive line the motif stays at its default. */
  lemma {:induction false} FirstPatternNone(lines: seq<string>)
    ensures FirstPattern(lines).None? <==> forall j :: 0 <= j < |lines| ==> PatternOf(lines[j]).None?
  {
    if lines != [] {
      FirstPatternNone(lines[1..]);
      assert forall j :: 1 <= j < |lines| ==> lines[j] == lines[1..][j - 1];
    }
  }

  /** Directive lines after the first one are ignored. */
  lemma {:induction false} LaterDirectivesIgnored(lines: seq<string>, more: seq<string>)
    requires FirstPattern(lines).Some?
    ensures FirstPattern(lines + more) == FirstPattern(lines)
  {
    assert (lines + more)[0] == lines[0];
    if PatternOf(lines[0]).None? {
      assert (lines + more)[1..] == lines[1..] + more;
      LaterDirectivesIgnored(lines[1..], more);
    }
  }

  // ---------------------------------------------------------------------
  // parse_report: the line loop

  /** What the regex # Sequence:\s*(\S+)\s*from: (\S+)\s*to: (\S+) captures. */
  datatype SeqHeader = SeqHeader(id: string, readFrom: string, readTo: string)

  /** to: (\S+) tried at position t. */
  function ToGroup(line: string, t: nat): Option<string>
    requires t <= |line|
  {
    if StartsAt(line, t, "to: ") then
      var n := NonSpaceRun(line, t + 4);
      if n > 0 then Some(line[t + 4..t + 4 + n]) else None
    else None
  }

  /** (\S+)\s*to: (\S+) with the first group m characters long at position j,
      giving back one character at a time as the regex engine backtracks. */
  function FromGroup(line: string, j: nat, m: nat): Option<(string, string)>
    requires j + m <= |line|
    decreases m
  {
    if m == 0 then None
    else
      var a := j + m;
      match ToGroup(line, a + SpaceRun(line, a))
      case Some(v) => Some((line[j..a], v))
      case None => FromGroup(line, j, m - 1)
  }

  /** from: (\S+)\s*to: (\S+) tried at position r. */
  function FromTo(line: string, r: nat): Option<(string, string)>
    requires r <= |line|
  {
    if StartsAt(line, r, "from: ") then FromGroup(line, r + 6, NonSpaceRun(line, r + 6)) else None
  }

  /** (\S+)\s*from: ... with the id group k characters long at position q,
      backtracking to shorter ids when the rest does not match. */
  function IdGroup(line: string, q: nat, k: nat): Option<SeqHeader>
    requires q + k <= |line|
    decreases k
  {
    if k == 0 then None
    else
      var a := q + k;
      match FromTo(line, a + SpaceRun(line, a))
      case Some(ft) => Some(SeqHeader(line[q..a], ft.0, ft.1))
      case None => IdGroup(line, q, k - 1)
  }

  /** The sequence regex tried at position p. */
  function SequenceAt(line: string, p: nat): Option<SeqHeader>
  {
    if StartsAt(line, p, "# Sequence:") then
      var q := p + 11 + SpaceRun(line, p + 11);
      IdGroup(line, q, NonSpaceRun(line, q))
    else None
  }

  /** seq_re.search on a report line (after rstrip). */
  function HeaderOf(raw: string): Option<SeqHeader>
  {
    FirstMatch(RStrip(raw), 0, SequenceAt)
  }

  /** A hit as parse_report builds it: a dict that holds read_length from its
      sequence line and whichever of from/to/strand/mismatch tag lines set. */
  datatype Hit = Hit(readLength: string, matchFrom: Option<string>, matchTo: Option<string>,
                     strand: Option<string>, mismatch: Option<string>)

  /** The four tag lines, in the order parse_report tries them. */
  datatype Tag = StartTag | EndTag | StrandTag | MismatchTag

  function Prefix(t: Tag): string
  {
    match t
    case StartTag => "Start: "
    case EndTag => "End: "
    case StrandTag => "Strand: "
    case MismatchTag => "Mismatch: "
  }

  /** ^<prefix>(\S+): the value a tag line carries. */
  function TagValue(line: string, t: Tag): Option<string>
  {
    var p := Prefix(t);
    if StartsAt(line, 0, p) && NonSpaceRun(line, |p|) > 0 then
      Some(line[|p|..|p| + NonSpaceRun(line, |p|)])
    else None
  }

  /** A token is left alone by rstrip. */
  lemma RStripEndsInToken(prefix: string, v: string)
    requires Token(v)
    ensures RStrip(prefix + v) == prefix + v
  {
    assert (prefix + v)[|prefix + v| - 1] == v[|v| - 1];
  }

  /** (\S+)\s*to: (\S+) when its first try, with m characters in the first
      group, already succeeds. */
  lemma FromGroupFirstTry(line: string, j: nat, m: nat, v: string)
    requires 0 < m && j + m < |line|
    requires SpaceRun(line, j + m) == 1 && ToGroup(line, j + m + 1) == Some(v)
    ensures FromGroup(line, j, m) == Some((line[j..j + m], v))
  {
  }

  /** from: (\S+) at r, with the group m characters long and a match for
      \s*to: (\S+) right after it. */
  lemma FromToFirstTry(line: string, r: nat, m: nat, v: string)
    requires 0 < m && r + 6 + m < |line|
    requires StartsAt(line, r, "from: ") && NonSpaceRun(line, r + 6) == m
    requires SpaceRun(line, r + 6 + m) == 1 && ToGroup(line, r + 7 + m) == Some(v)
    ensures FromTo(line, r) == Some((line[r + 6..r + 6 + m], v))
  {
    FromGroupFirstTry(line, r + 6, m, v);
  }

  /** (\S+)\s*from: ... when its first try, with k characters in the id
      group, already succeeds. */
  lemma IdGroupFirstTry(line: string, q: nat, k: nat, ft: (string, string))
    requires 0 < k && q + k < |line|
    requires SpaceRun(line, q + k) == 1 && FromTo(line, q + k + 1) == Some(ft)
    ensures IdGroup(line, q, k) == Some(SeqHeader(line[q..q + k], ft.0, ft.1))
  {
  }

  /** The run of token characters at i, of length |w|, that the line holds there. */
  lemma TokenRun(line: string, i: nat, w: string)
    requires Token(w) && i + |w| <= |line| && line[i..i + |w|] == w
    requires i + |w| == |line| || IsSpace(line[i + |w|])
    ensures NonSpaceRun(line, i) == |w|
  {
    assert forall j :: i <= j < i + |w| ==> line[j] == w[j - i];
    NonSpaceRunExact(line, i, |w|);
  }

  /** A single blank at i, followed by a character that is not one. */
  lemma OneBlank(line: string, i: nat)
    requires i + 1 < |line| && IsSpace(line[i]) && !IsSpace(line[i + 1])
    ensures SpaceRun(line, i) == 1
  {
    SpaceRunExact(line, i, 1);
  }

  /** \s*to: (\S+) at t on a line that ends in " to: " + v. */
  lemma BlankToAt(line: string, t: nat, v: string)
    requires Token(v) && t + 5 + |v| == |line|
    requires line[t] == ' ' && line[t + 1..t + 5] == "to: " && line[t + 5..] == v
    ensures SpaceRun(line, t) == 1 && ToGroup(line, t + 1) == Some(v)
  {
    assert line[t + 1] == 't';
    OneBlank(line, t);
    TokenRun(line, t + 5, v);
    assert StartsAt(line, t + 1, "to: ");
    assert line[t + 5..t + 5 + |v|] == v;
  }

  /** from: (\S+)\s*to: (\S+) at r on a line that ends in
      "from: " + f + " to: " + v. */
  lemma FromToAt(line: string, r: nat, f: string, v: string)
    requires Token(f) && Token(v) && r + 6 + |f| + 5 + |v| == |line|
    requires line[r..r + 6] == "from: " && line[r + 6..r + 6 + |f|] == f
    requires line[r + 6 + |f|] == ' ' && line[r + 7 + |f|..r + 11 + |f|] == "to: " && line[r + 11 + |f|..] == v
    ensures FromTo(line, r) == Some((f, v))
  {
    BlankToAt(line, r + 6 + |f|, v);
    TokenRun(line, r + 6, f);
    assert StartsAt(line, r, "from: ");
    FromToFirstTry(line, r, |f|, v);
  }

  /** The layout of the sequence line fuzznuc writes: where each literal and
      each value sits. */
  lemma SequenceLineLayout(id: string, f: string, v: string)
    ensures var line := "# Sequence: " + id + " from: " + f + " to: " + v;
            var a := 12 + |id|;
            var b := a + 7 + |f|;
            |line| == b + 5 + |v| && line[..11] == "# Sequence:" && line[11] == ' '
            && line[12..a] == id && line[a] == ' ' && line[a + 1..a + 7] == "from: "
            && line[a + 7..b] == f && line[b] == ' ' && line[b + 1..b + 5] == "to: " && line[b + 5..] == v
  {
    var head := "# Sequence: " + id + " from: " + f + " to: ";
    var line := head + v;
    var a := 12 + |id|;
    var b := a + 7 + |f|;
    assert line[..b + 5] == head;
    assert head[..11] == "# Sequence:";
    assert head[12..a] == id;
    assert head[a + 1..a + 7] == "from: ";
    assert head[a + 7..b] == f;
    assert head[b + 1..b + 5] == "to: ";
  }

  /** (\S+)\s*from: (\S+)\s*to: (\S+) at q on a line that ends in
      id + " from: " + f + " to: " + v. */
  lemma IdGroupAt(line: string, q: nat, id: string, f: string, v: string)
    requires Token(id) && Token(f) && Token(v)
    requires var a := q + |id|;
             var b := a + 7 + |f|;
             |line| == b + 5 + |v| && line[q..a] == id && line[a] == ' ' && line[a + 1..a + 7] == "from: "
             && line[a + 7..b] == f && line[b] == ' ' && line[b + 1..b + 5] == "to: " && line[b + 5..] == v
    ensures IdGroup(line, q, NonSpaceRun(line, q)) == Some(SeqHeader(id, f, v))
  {
    var a := q + |id|;
    FromToAt(line, a + 1, f, v);
    assert line[a + 1] == 'f';
    OneBlank(line, a);
    IdGroupFirstTry(line, q, |id|, (f, v));
    TokenRun(line, q, id);
  }

  /** The sequence regex at the start of that line. */
  lemma SequenceAtStart(line: string, id: string, f: string, v: string)
    requires Token(id) && Token(f) && Token(v)
    requires var a := 12 + |id|;
             var b := a + 7 + |f|;
             |line| == b + 5 + |v| && line[..11] == "# Sequence:" && line[11] == ' '
             && line[12..a] == id && line[a] == ' ' && line[a + 1..a + 7] == "from: "
             && line[a + 7..b] == f && line[b] == ' ' && line[b + 1..b + 5] == "to: " && line[b + 5..] == v
    ensures SequenceAt(line, 0) == Some(SeqHeader(id, f, v))
  {
    IdGroupAt(line, 12, id, f, v);
    assert line[12] == id[0];
    OneBlank(line, 11);
    assert StartsAt(line, 0, "# Sequence:");
  }

  /** The sequence line fuzznuc writes for a read is read back by seq_re as
      that read's id, start and length. */
  lemma SequenceLineRoundTrip(id: string, readFrom: string, readTo: string)
    requires Token(id) && Token(readFrom) && Token(readTo)
    ensures HeaderOf("# Sequence: " + id + " from: " + readFrom + " to: " + readTo)
              == Some(SeqHeader(id, readFrom, readTo))
  {
    var head := "# Sequence: " + id + " from: " + readFrom + " to: ";
    RStripEndsInToken(head, readTo);
    SequenceLineLayout(id, readFrom, readTo);
    SequenceAtStart(head + readTo, id, readFrom, readTo);
  }

  /** A tag line <prefix><value> is read back as that value by its own tag's
      regex, and by no other. */
  lemma TagLineRoundTrip(t: Tag, v: string, u: Tag)
    requires Token(v)
    ensures TagValue(Prefix(t) + v, u) == if u == t then Some(v) else None
  {
    var line := Prefix(t) + v;
    var p := Prefix(t);
    assert line[..|p|] == p && line[|p|..] == v;
    assert forall j :: |p| <= j < |line| ==> line[j] == v[j - |p|];
    NonSpaceRunExact(line, |p|, |v|);
    assert StartsAt(line, 0, p);
    assert line[|p|..|p| + |v|] == v;
    if u != t {
      TagsExclusive(line, t, u);
    }
  }

  /** The -pattern directive line names its motif. */
  lemma PatternLineRoundTrip(motif: string)
    requires Token(motif)
    ensures PatternOf("# -pattern " + motif) == Some(motif)
  {
    var line := "# -pattern " + motif;
    RStripEndsInToken("# -pattern ", motif);
    assert line[0] == '#' && line[1] == ' ' && line[2..10] == "-pattern" && line[10] == ' ';
    assert line[11..] == motif;
    SpaceRunExact(line, 1, 1);
    SpaceRunExact(line, 10, 1);
    NonSpaceRunExact(line, 11, |motif|);
    assert PatternAt(line, 0) == Some(motif);
  }

  /** What the five regexes of the loop capture on one (rstripped) line. */
  datatype LineMatches = LineMatches(header: Option<SeqHeader>, start: Option<string>, end: Option<string>,
                                     strand: Option<string>, mismatch: Option<string>)

  function Classify(raw: string): LineMatches
  {
    var line := RStrip(raw);
    LineMatches(HeaderOf(raw), TagValue(line, StartTag), TagValue(line, EndTag),
                TagValue(line, StrandTag), TagValue(line, MismatchTag))
  }

  /** The matches of every line of a report, in order. */
  function ClassifyAll(lines: seq<string>): (ms: seq<LineMatches>)
    ensures |ms| == |lines|
    ensures forall i :: 0 <= i < |lines| ==> ms[i] == Classify(lines[i])
  {
    seq(|lines|, i requires 0 <= i < |lines| => Classify(lines[i]))
  }

  function TagOf(m: LineMatches, t: Tag): Option<string>
  {
    match t
    case StartTag => m.start
    case EndTag => m.end
    case StrandTag => m.strand
    case MismatchTag => m.mismatch
  }

  /** The field of a hit that a tag sets: Start sets 'from', End sets 'to'. */
  function SetField(h: Hit, t: Tag, v: string): Hit
  {
    match t
    case StartTag => h.(matchFrom := Some(v))
    case EndTag => h.(matchTo := Some(v))
    case StrandTag => h.(strand := Some(v))
    case MismatchTag => h.(mismatch := Some(v))
  }

  /** The loop's variables: the hits dict and current_id (None for False). */
  datatype ScanState = ScanState(hits: map<string, Hit>, current: Option<string>)

  const START := ScanState(map[], None)

  /** current_id always names a record of hits. */
  predicate ValidState(st: ScanState)
  {
    st.current.Some? ==> st.current.value in st.hits
  }

  /** `if current_id and <tag>_match`: the tag sets its field of the current record. */
  function ApplyTag(st: ScanState, t: Tag, value: Option<string>): (r: ScanState)
    requires ValidState(st)
    ensures ValidState(r) && r.current == st.current && r.hits.Keys == st.hits.Keys
  {
    match value
    case Some(v) =>
      if st.current.Some? then
        var id := st.current.value;
        ScanState(st.hits[id := SetField(st.hits[id], t, v)], st.current)
      else st
    case None => st
  }

  /** The effect of a sequence line: a fresh record for its read, holding
      only read_length (the "to" group), and that read becomes current. */
  function Open(st: ScanState, m: LineMatches): (r: ScanState)
    requires ValidState(st)
    ensures ValidState(r)
  {
    match m.header
    case Some(h) => ScanState(st.hits[h.id := Hit(h.readTo, None, None, None, None)], Some(h.id))
    case None => st
  }

  /** The effect of the four tag tests, in the order the loop makes them. */
  function ApplyTags(st: ScanState, m: LineMatches): (r: ScanState)
    requires ValidState(st)
    ensures ValidState(r) && r.current == st.current && r.hits.Keys == st.hits.Keys
  {
    ApplyTag(ApplyTag(ApplyTag(ApplyTag(st, StartTag, m.start), EndTag, m.end), StrandTag, m.strand), MismatchTag, m.mismatch)
  }

  /** One iteration of the loop. */
  function Step(st: ScanState, m: LineMatches): (r: ScanState)
    requires ValidState(st)
    ensures ValidState(r)
  {
    ApplyTags(Open(st, m), m)
  }

  /** A sequence line adds its read to the records and makes it current;
      any other line keeps both the set of records and the current read. */
  lemma StepKeys(st: ScanState, m: LineMatches)
    requires ValidState(st)
    ensures Step(st, m).hits.Keys == st.hits.Keys + (if m.header.Some? then {m.header.value.id} else {})
    ensures Step(st, m).current == if m.header.Some? then Some(m.header.value.id) else st.current
  {
  }

  /** The state after the loop has gone through the first n lines, given
      by their matches ms. */
  function Scan(ms: seq<LineMatches>, n: nat): (r: ScanState)
    requires n <= |ms|
    ensures ValidState(r)
  {
    if n == 0 then START else Step(Scan(ms, n - 1), ms[n - 1])
  }

  /** The hits dict parse_report builds from a report. */
  function ReportHits(lines: seq<string>): map<string, Hit>
  {
    Scan(ClassifyAll(lines), |lines|).hits
  }

  /** `if current_id and <tag>_match`: one of the four tag updates. */
  method SetTagField(hits: map<string, Hit>, current: Option<string>, t: Tag, value: Option<string>)
      returns (hits': map<string, Hit>)
    requires ValidState(ScanState(hits, current))
    ensures ScanState(hits', current) == ApplyTag(ScanState(hits, current), t, value)
  {
    hits' := hits;
    if current.Some? && value.Some? {
      hits' := hits[current.value := SetField(hits[current.value], t, value.value)];
    }
  }

  /** One pass of parse_report's loop body: the sequence-line test, then the
      four tag tests, each updating the record of the current read. */
  method StepLine(hits: map<string, Hit>, current: Option<string>, raw: string)
      returns (hits': map<string, Hit>, current': Option<string>)
    requires ValidState(ScanState(hits, current))
    ensures ScanState(hits', current') == Step(ScanState(hits, current), Classify(raw))
  {
    hits', current' := hits, current;
    var line := RStrip(raw);
    var header := FirstMatch(line, 0, SequenceAt);
    if header.Some? {
      current' := Some(header.value.id);
      hits' := hits'[header.value.id := Hit(header.value.readTo, None, None, None, None)];
    }
    assert ScanState(hits', current') == Open(ScanState(hits, current), Classify(raw));
    hits' := SetTagField(hits', current', StartTag, TagValue(line, StartTag));
    hits' := SetTagField(hits', current', EndTag, TagValue(line, EndTag));
    hits' := SetTagField(hits', current', StrandTag, TagValue(line, StrandTag));
    hits' := SetTagField(hits', current', MismatchTag, TagValue(line, MismatchTag));
  }

  /** parse_report's loop over the report's lines. */
  method ScanReport(lines: seq<string>) returns (hits: map<string, Hit>)
    ensures hits == ReportHits(lines)
  {
    hits := map[];
    var current: Option<string> := None;
    ghost var ms := ClassifyAll(lines);
    var i := 0;
    while i < |lines|
      invariant 0 <= i <= |lines|
      invariant ScanState(hits, current) == Scan(ms, i)
    {
      hits, current := StepLine(hits, current, lines[i]);
      i := i + 1;
    }
  }

  /** Line i is a sequence line, for read id. */
  predicate HeaderFor(ms: seq<LineMatches>, i: nat, id: string)
    requires i < |ms|
  {
    ms[i].header.Some? && ms[i].header.value.id == id
  }

  /** The records are exactly those of the reads named on sequence lines. */
  lemma {:induction false} ScanKeys(ms: seq<LineMatches>, n: nat, id: string)
    requires n <= |ms|
    ensures id in Scan(ms, n).hits <==> exists i :: 0 <= i < n && HeaderFor(ms, i, id)
  {
    if n > 0 {
      ScanKeys(ms, n - 1, id);
      StepKeys(Scan(ms, n - 1), ms[n - 1]);
      if !HeaderFor(ms, n - 1, id) {
        assert (exists i :: 0 <= i < n && HeaderFor(ms, i, id)) ==> exists i :: 0 <= i < n - 1 && HeaderFor(ms, i, id);
      }
    }
  }

  /** Tag lines before any sequence line change nothing: lines without a
      sequence line leave the state as it started. */
  lemma {:induction false} NoHeaderNoHits(ms: seq<LineMatches>, n: nat)
    requires n <= |ms|
    requires forall i :: 0 <= i < n ==> ms[i].header.None?
    ensures Scan(ms, n) == START
  {
    if n > 0 {
      NoHeaderNoHits(ms, n - 1);
    }
  }

  /** Line i is the last of the first n lines that is a sequence line for id. */
  predicate LastHeaderFor(ms: seq<LineMatches>, n: nat, i: nat, id: string)
    requires i < n <= |ms|
  {
    HeaderFor(ms, i, id) && forall j :: i < j < n ==> !HeaderFor(ms, j, id)
  }

  /** A record's read_length comes from the last sequence line for its read. */
  lemma {:induction false} ReadLengthFromLastHeader(ms: seq<LineMatches>, n: nat, id: string)
    requires n <= |ms| && id in Scan(ms, n).hits
    ensures exists i :: 0 <= i < n && LastHeaderFor(ms, n, i, id)
              && Scan(ms, n).hits[id].readLength == ms[i].header.value.readTo
  {
    var last := ms[n - 1];
    var st := Scan(ms, n - 1);
    TagsKeepReadLength(Open(st, last), last, id);
    if HeaderFor(ms, n - 1, id) {
      assert LastHeaderFor(ms, n, n - 1, id);
    } else {
      StepKeys(st, last);
      ReadLengthFromLastHeader(ms, n - 1, id);
      var i :| 0 <= i < n - 1 && LastHeaderFor(ms, n - 1, i, id)
              && st.hits[id].readLength == ms[i].header.value.readTo;
      assert LastHeaderFor(ms, n, i, id);
    }
  }

  /** Tag lines never touch read_length. */
  lemma TagsKeepReadLength(st: ScanState, m: LineMatches, id: string)
    requires ValidState(st) && id in st.hits
    ensures ApplyTags(st, m).hits[id].readLength == st.hits[id].readLength
  {
  }

  /** A sequence line that carries no tag replaces its read's record by a
      fresh one holding only read_length, and makes that read current. */
  lemma SequenceLineOpensFreshRecord(st: ScanState, raw: string)
    requires ValidState(st) && Classify(raw).header.Some?
    requires forall t: Tag :: TagOf(Classify(raw), t).None?
    ensures var h := Classify(raw).header.value;
            Step(st, Classify(raw)) == ScanState(st.hits[h.id := Hit(h.readTo, None, None, None, None)], Some(h.id))
  {
    var m := Classify(raw);
    assert TagOf(m, StartTag).None? && TagOf(m, EndTag).None?;
    assert TagOf(m, StrandTag).None? && TagOf(m, MismatchTag).None?;
  }

  /** At most one of the four tags matches a line. */
  lemma TagsExclusive(line: string, t: Tag, u: Tag)
    requires t != u && TagValue(line, t).Some?
    ensures TagValue(line, u).None?
  {
    var p, q := Prefix(t), Prefix(u);
    assert line[..|p|] == p;
    assert p[0] != q[0] || p[2] != q[2];
    assert |p| >= 3 && |q| >= 3 && line[0] == p[0] && line[2] == p[2];
  }

  /** The four tests of a line carrying exactly the tag t: only t's field
      of the current record is set. */
  lemma ApplyTagsOne(st: ScanState, m: LineMatches, t: Tag, v: string)
    requires ValidState(st) && st.current.Some?
    requires TagOf(m, t) == Some(v)
    requires forall u: Tag :: u != t ==> TagOf(m, u).None?
    ensures var id := st.current.value;
            ApplyTags(st, m) == ScanState(st.hits[id := SetField(st.hits[id], t, v)], st.current)
  {
    assert TagOf(m, StartTag) == m.start && TagOf(m, EndTag) == m.end;
    assert TagOf(m, StrandTag) == m.strand && TagOf(m, MismatchTag) == m.mismatch;
  }

  /** Classify records what each tag's regex captures. */
  lemma TagOfClassify(raw: string, u: Tag)
    ensures TagOf(Classify(raw), u) == TagValue(RStrip(raw), u)
  {
    match u
    case StartTag =>
    case EndTag =>
    case StrandTag =>
    case MismatchTag =>
  }

  /** On a line that is not a sequence line, a tag sets its field of the
      current record, overwriting an earlier value, and changes nothing else. */
  lemma TagLineSetsField(st: ScanState, raw: string, t: Tag, v: string)
    requires ValidState(st) && st.current.Some? && Classify(raw).header.None?
    requires TagOf(Classify(raw), t) == Some(v)
    ensures var id := st.current.value;
            Step(st, Classify(raw)) == ScanState(st.hits[id := SetField(st.hits[id], t, v)], st.current)
  {
    var line := RStrip(raw);
    var m := Classify(raw);
    TagOfClassify(raw, t);
    forall u: Tag | u != t ensures TagOf(m, u).None? {
      TagOfClassify(raw, u);
      TagsExclusive(line, t, u);
    }
    assert Open(st, m) == st;
    ApplyTagsOne(st, m, t, v);
  }

  // ---------------------------------------------------------------------
  // check_results

  /** The hit carries integer read_length, from and to, so int() succeeds on all three. */
  predicate Numeric(h: Hit)
  {
    IsInt(h.readLength) && h.matchFrom.Some? && IsInt(h.matchFrom.value)
    && h.matchTo.Some? && IsInt(h.matchTo.value)
  }

  /** The exception check_results raises on a hit, in the order it converts the fields. */
  function HitError(h: Hit): (r: Option<Error>)
    ensures r.None? <==> Numeric(h)
  {
    if !IsInt(h.readLength) then Some(NotAnInteger(h.readLength))
    else if h.matchFrom.None? then Some(MissingField("from"))
    else if !IsInt(h.matchFrom.value) then Some(NotAnInteger(h.matchFrom.value))
    else if h.matchTo.None? then Some(MissingField("to"))
    else if !IsInt(h.matchTo.value) then Some(NotAnInteger(h.matchTo.value))
    else None
  }

  /** The retention rule: for 5' hits at least MIN_FLANK bp before the motif
      (from - 1, as positions are 1-indexed), otherwise at least MIN_FLANK bp
      after it. Strand and mismatch play no part. */
  predicate Keeps(h: Hit, prime: string)
    requires Numeric(h)
  {
    if prime == FIVE_PRIME then IntOf(h.matchFrom.value) - 1 >= MIN_FLANK
    else IntOf(h.readLength) - IntOf(h.matchTo.value) >= MIN_FLANK
  }

  /** The body of check_results' loop for one hit: the exception it raises,
      or whether the hit is kept. */
  method CheckHit(h: Hit, prime: string) returns (e: Option<Error>, keep: bool)
    ensures e == HitError(h)
    ensures e.None? ==> keep == Keeps(h, prime)
  {
    keep := false;
    var length := ParseInt(h.readLength);
    if length.None? {
      return Some(NotAnInteger(h.readLength)), keep;
    }
    if h.matchFrom.None? {
      return Some(MissingField("from")), keep;
    }
    var from := ParseInt(h.matchFrom.value);
    if from.None? {
      return Some(NotAnInteger(h.matchFrom.value)), keep;
    }
    if h.matchTo.None? {
      return Some(MissingField("to")), keep;
    }
    var to := ParseInt(h.matchTo.value);
    if to.None? {
      return Some(NotAnInteger(h.matchTo.value)), keep;
    }
    e := None;
    if prime == FIVE_PRIME {
      keep := from.value - 1 >= MIN_FLANK;
    } else {
      keep := length.value - to.value >= MIN_FLANK;
    }
  }

  /** check_results: the sub-map of the hits that Keeps accepts; raises as
      soon as a hit lacks an integer read_length, from or to. */
  method CheckResults(hits: map<string, Hit>, prime: string) returns (r: Result<map<string, Hit>>)
    ensures r.Success? <==> forall k :: k in hits ==> Numeric(hits[k])
    ensures r.Failure? ==> exists k :: k in hits && HitError(hits[k]) == Some(r.error)
    ensures r.Success? ==> forall k :: k in r.value <==> k in hits && Keeps(hits[k], prime)
    ensures r.Success? ==> forall k :: k in r.value ==> r.value[k] == hits[k]
  {
    var valid: map<string, Hit> := map[];
    var todo := hits.Keys;
    while todo != {}
      invariant todo <= hits.Keys
      invariant forall k :: k in hits && k !in todo ==> Numeric(hits[k])
      invariant forall k :: k in valid <==> k in hits && k !in todo && Keeps(hits[k], prime)
      invariant forall k :: k in valid ==> valid[k] == hits[k]
      decreases todo
    {
      var k :| k in todo;
      var e, keep := CheckHit(hits[k], prime);
      if e.Some? {
        return Failure(e.value);
      }
      if keep {
        valid := valid[k := hits[k]];
      }
      todo := todo - {k};
    }
    r := Success(valid);
  }

  // ---------------------------------------------------------------------
  // parse_report

  /** The terminus parse_report filters with: determine_prime's answer, or
      '' when determine_prime raised (the warning is caught and printed). */
  function ReportPrime(lines: seq<string>): (p: string)
    ensures p == FIVE_PRIME <==> FirstPattern(lines) == Some(FIVE_PRIME_MOTIF)
    ensures p == THREE_PRIME <==> FirstPattern(lines) == Some(THREE_PRIME_MOTIF)
  {
    match PrimeOf(FirstPattern(lines).GetOr(""))
    case Success(p) => p
    case Failure(_) => ""
  }

  /** An unrecognised motif does not abort the report: the terminus stays ''
      and hits are filtered by the rule for the non-5' side. */
  lemma UnknownMotifFiltersByEnd(lines: seq<string>, h: Hit)
    requires FirstPattern(lines) != Some(FIVE_PRIME_MOTIF) && FirstPattern(lines) != Some(THREE_PRIME_MOTIF)
    requires Numeric(h)
    ensures ReportPrime(lines) == ""
    ensures Keeps(h, ReportPrime(lines)) <==> IntOf(h.readLength) - IntOf(h.matchTo.value) >= MIN_FLANK
  {
  }

  /** parse_report: the hits of the report, filtered for the report's terminus. */
  method ParseReport(lines: seq<string>) returns (r: Result<map<string, Hit>>)
    ensures r.Success? <==> forall k :: k in ReportHits(lines) ==> Numeric(ReportHits(lines)[k])
    ensures r.Failure? ==> exists k :: k in ReportHits(lines) && HitError(ReportHits(lines)[k]) == Some(r.error)
    ensures r.Success? ==> forall k :: k in r.value <==>
              k in ReportHits(lines) && Keeps(ReportHits(lines)[k], ReportPrime(lines))
    ensures r.Success? ==> forall k :: k in r.value ==> r.value[k] == ReportHits(lines)[k]
  {
    var prime := DeterminePrime(lines, "");
    var whichPrime := if prime.Success? then prime.value else "";
    var hits := ScanReport(lines);
    r := CheckResults(hits, whichPrime);
  }
}
