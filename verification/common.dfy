/** Values, errors and the parts of Python 2's string semantics that the
    HERV-K pipeline scripts rely on: whitespace, rstrip/strip, int(), lower(),
    slicing, and the building blocks of the few regular expressions they use. */
module Common {

  datatype Option<+T> = None | Some(value: T)
  {
    function GetOr(default: T): T
    {
      match this
      case Some(v) => v
      case None => default
    }
  }

  /** A value, or the exception the Python code would raise instead. */
  datatype Result<+T> = Success(value: T) | Failure(error: Error)

  /** The exceptions the modelled scripts can raise. */
  datatype Error =
    | UnknownPattern(pattern: string)   // UserWarning raised by determine_prime
    | MissingField(field: string)       // KeyError on a record
    | NotAnInteger(text: string)        // ValueError raised by int()
    | MalformedReadId(key: string)      // ValueError unpacking key.split('.')
    | MissingSequenceLine               // StopIteration raised by next(in_file)
    | UnknownStrand(strand: string)     // KeyError on the strand-name table
    | ShortRow(row: seq<string>)        // IndexError on a positional row
    | EmptyInput                        // next() on an empty file, keys()[0] on an empty dict

  /** The names of the two LTR termini, as the scripts write them. */
  const FIVE_PRIME := "5_prime"
  const THREE_PRIME := "3_prime"

  // ---------------------------------------------------------------------
  // Whitespace, as str.isspace and the regex class \s see it for byte strings

  predicate IsSpace(c: char)
  {
    c == ' ' || c == '\t' || c == '\n' || c == '\r' || c as int == 11 || c as int == 12
  }

  /** str.rstrip(): the longest prefix of s that does not end in whitespace. */
  function RStrip(s: string): (r: string)
    ensures |r| <= |s| && r == s[..|r|]
  {
    if s != [] && IsSpace(s[|s| - 1]) then RStrip(s[..|s| - 1]) else s
  }

  /** RStrip removes exactly the trailing whitespace. */
  lemma {:induction false} RStripSpec(s: string)
    ensures RStrip(s) == [] || !IsSpace(RStrip(s)[|RStrip(s)| - 1])
    ensures forall i :: |RStrip(s)| <= i < |s| ==> IsSpace(s[i])
  {
    if s != [] && IsSpace(s[|s| - 1]) {
      RStripSpec(s[..|s| - 1]);
    }
  }

  /** str.lstrip(): the longest suffix of s that does not start with whitespace. */
  function LStrip(s: string): (r: string)
    ensures |r| <= |s| && r == s[|s| - |r|..]
  {
    if s != [] && IsSpace(s[0]) then LStrip(s[1..]) else s
  }

  /** LStrip removes exactly the leading whitespace. */
  lemma {:induction false} LStripSpec(s: string)
    ensures LStrip(s) == [] || !IsSpace(LStrip(s)[0])
    ensures forall i :: 0 <= i < |s| - |LStrip(s)| ==> IsSpace(s[i])
  {
    if s != [] && IsSpace(s[0]) {
      LStripSpec(s[1..]);
      assert forall i :: 1 <= i < |s| ==> s[i] == s[1..][i - 1];
    }
  }

  /** str.strip() */
  function Strip(s: string): string
  {
    LStrip(RStrip(s))
  }

  // ---------------------------------------------------------------------
  // int() on a string

  predicate IsDigit(c: char)
  {
    '0' <= c <= '9'
  }

  predicate AllDigits(s: string)
  {
    forall i :: 0 <= i < |s| ==> IsDigit(s[i])
  }

  /** The value of a string of decimal digits. */
  function DigitsValue(s: string): nat
    requires AllDigits(s)
  {
    if s == [] then 0 else 10 * DigitsValue(s[..|s| - 1]) + (s[|s| - 1] as int - '0' as int)
  }

  /** Python 2's int(s) for a str s: optional surrounding whitespace, an
      optional sign, optional whitespace after the sign, then at least one
      decimal digit; None where int() raises ValueError. */
  function ParseInt(s: string): Option<int>
  {
    var t := Strip(s);
    if |t| > 0 && (t[0] == '+' || t[0] == '-') then Signed(t[0] == '-', LStrip(t[1..]))
    else Unsigned(t)
  }

  /** The value of a non-empty run of digits, and None for anything else. */
  function Unsigned(d: string): Option<int>
  {
    if |d| > 0 && AllDigits(d) then Some(DigitsValue(d)) else None
  }

  /** The digits after a sign, negated for a minus sign. */
  function Signed(negative: bool, d: string): Option<int>
  {
    match Unsigned(d)
    case None => None
    case Some(v) => Some(if negative then -v else v)
  }

  predicate IsInt(s: string)
  {
    ParseInt(s).Some?
  }

  function IntOf(s: string): int
    requires IsInt(s)
  {
    ParseInt(s).value
  }

  /** The decimal digits of n, most significant first (str(n) for n >= 0). */
  function Digits(n: nat): (r: string)
    ensures |r| > 0 && AllDigits(r)
  {
    var d := [('0' as int + n % 10) as char];
    if n < 10 then d else Digits(n / 10) + d
  }

  /** str(n) */
  function Decimal(n: int): string
  {
    if n < 0 then "-" + Digits(-n) else Digits(n)
  }

  lemma {:induction false} DigitsValueOfDigits(n: nat)
    ensures DigitsValue(Digits(n)) == n
  {
    var d := [('0' as int + n % 10) as char];
    if n >= 10 {
      DigitsValueOfDigits(n / 10);
      assert (Digits(n / 10) + d)[..|Digits(n / 10) + d| - 1] == Digits(n / 10);
    }
  }

  /** strip() keeps a string that neither starts nor ends with whitespace. */
  lemma StripUnchanged(s: string)
    requires |s| > 0 && !IsSpace(s[0]) && !IsSpace(s[|s| - 1])
    ensures Strip(s) == s
  {
    assert RStrip(s) == s;
  }

  /** A numeral without a sign is read as its value. */
  lemma ParseIntOfDigits(d: string)
    requires |d| > 0 && AllDigits(d)
    ensures ParseInt(d) == Some(DigitsValue(d) as int)
  {
    assert IsDigit(d[0]) && IsDigit(d[|d| - 1]);
    StripUnchanged(d);
  }

  /** int() of a minus sign and text reads the text after the sign. */
  lemma ParseIntAfterMinus(r: string)
    requires |r| > 0 && !IsSpace(r[|r| - 1])
    ensures ParseInt("-" + r) == Signed(true, LStrip(("-" + r)[1..]))
  {
    var s := "-" + r;
    assert s[|s| - 1] == r[|r| - 1];
    StripUnchanged(s);
  }

  /** lstrip() after the sign leaves the digits, past any whitespace. */
  lemma SpaceAfterMinus(ws: string, d: string)
    requires forall i :: 0 <= i < |ws| ==> IsSpace(ws[i])
    requires |d| > 0 && AllDigits(d)
    ensures LStrip(("-" + (ws + d))[1..]) == d
  {
    assert ("-" + (ws + d))[1..] == ws + d;
    assert IsDigit(d[0]);
    LStripSpaces(ws, d);
  }

  /** Digits after a minus sign give their negated value. */
  lemma SignedNegative(d: string)
    requires |d| > 0 && AllDigits(d)
    ensures Signed(true, d) == Some(-(DigitsValue(d) as int))
  {
  }

  /** A numeral after a minus sign is read as its negated value. */
  lemma ParseIntOfNegative(d: string)
    requires |d| > 0 && AllDigits(d)
    ensures ParseInt("-" + d) == Some(-(DigitsValue(d) as int))
  {
    assert IsDigit(d[|d| - 1]);
    ParseIntAfterMinus(d);
    SpaceAfterMinus([], d);
    assert [] + d == d;
    SignedNegative(d);
  }

  /** lstrip() removes a run of whitespace in front of a non-space. */
  lemma {:induction false} LStripSpaces(ws: string, d: string)
    requires forall i :: 0 <= i < |ws| ==> IsSpace(ws[i])
    requires |d| > 0 && !IsSpace(d[0])
    ensures LStrip(ws + d) == d
  {
    if ws != [] {
      assert (ws + d)[1..] == ws[1..] + d;
      LStripSpaces(ws[1..], d);
    }
  }

  /** int() skips whitespace between the sign and the digits: int("- 5") is -5. */
  lemma ParseIntSpaceAfterSign(ws: string, d: string)
    requires forall i :: 0 <= i < |ws| ==> IsSpace(ws[i])
    requires |d| > 0 && AllDigits(d)
    ensures ParseInt("-" + ws + d) == Some(-(DigitsValue(d) as int))
  {
    var r := ws + d;
    assert r[|r| - 1] == d[|d| - 1] && IsDigit(d[|d| - 1]);
    assert "-" + ws + d == "-" + r;
    ParseIntAfterMinus(r);
    SpaceAfterMinus(ws, d);
    SignedNegative(d);
  }

  /** int(str(n)) == n: ParseInt reads back exactly what Decimal writes. */
  lemma ParseIntOfDecimal(n: int)
    ensures ParseInt(Decimal(n)) == Some(n)
  {
    var m: nat := if n < 0 then -n else n;
    DigitsValueOfDigits(m);
    if n < 0 {
      ParseIntOfNegative(Digits(m));
    } else {
      ParseIntOfDigits(Digits(m));
    }
  }

  // ---------------------------------------------------------------------
  // str.lower() on a byte string: ASCII letters only

  function LowerChar(c: char): char
  {
    if 'A' <= c <= 'Z' then (c as int + 32) as char else c
  }

  function Lower(s: string): (r: string)
    ensures |r| == |s|
    ensures forall i :: 0 <= i < |s| ==> r[i] == LowerChar(s[i])
  {
    if s == [] then [] else [LowerChar(s[0])] + Lower(s[1..])
  }

  // ---------------------------------------------------------------------
  // str.split(sep) for a one-character separator

  /** The index of the first c in s, or |s| when there is none. */
  function IndexOf(s: string, c: char): (r: nat)
    ensures r <= |s|
    ensures r < |s| ==> s[r] == c
    ensures forall j :: 0 <= j < r ==> s[j] != c
  {
    if s == [] then 0 else if s[0] == c then 0 else 1 + IndexOf(s[1..], c)
  }

  /** s.split(c): the pieces between the occurrences of c. */
  function Split(s: string, c: char): (r: seq<string>)
    ensures |r| > 0
    decreases |s|
  {
    var i := IndexOf(s, c);
    if i == |s| then [s] else [s[..i]] + Split(s[i + 1..], c)
  }

  /** Splitting a + c + b where neither piece holds c gives the two pieces back,
      and s splits into exactly two pieces only when it is such a join. */
  lemma SplitTwo(a: string, b: string, c: char)
    requires c !in a && c !in b
    ensures Split(a + [c] + b, c) == [a, b]
  {
    var s := a + [c] + b;
    assert s[|a|] == c;
    assert forall j :: 0 <= j < |a| ==> s[j] == a[j];
    assert IndexOf(s, c) == |a|;
    assert s[..|a|] == a && s[|a| + 1..] == b;
    assert IndexOf(b, c) == |b|;
  }

  /** Splitting a + c + b where a holds no c gives a, then the pieces of b. */
  lemma SplitCons(a: string, b: string, c: char)
    requires c !in a
    ensures Split(a + [c] + b, c) == [a] + Split(b, c)
  {
    var s := a + [c] + b;
    assert s[|a|] == c;
    assert forall j :: 0 <= j < |a| ==> s[j] == a[j];
    assert IndexOf(s, c) == |a|;
    assert s[..|a|] == a && s[|a| + 1..] == b;
  }

  /** The converse: two pieces join back to s. */
  lemma SplitTwoJoin(s: string, c: char)
    requires |Split(s, c)| == 2
    ensures s == Split(s, c)[0] + [c] + Split(s, c)[1]
    ensures c !in Split(s, c)[0] && c !in Split(s, c)[1]
  {
    var i := IndexOf(s, c);
    var rest := s[i + 1..];
    assert i < |s|;
    assert IndexOf(rest, c) == |rest|;
    assert s == s[..i] + [c] + rest;
    assert c !in s[..i] by {
      forall j | 0 <= j < i ensures s[..i][j] != c {
      }
    }
  }

  // ---------------------------------------------------------------------
  // Applying a function to every element

  function Map<A, B>(f: A --> B, s: seq<A>): (r: seq<B>)
    requires forall i :: 0 <= i < |s| ==> f.requires(s[i])
    ensures |r| == |s| && forall i :: 0 <= i < |s| ==> r[i] == f(s[i])
  {
    seq(|s|, i requires 0 <= i < |s| => f(s[i]))
  }

  lemma MapAppend<A, B>(f: A --> B, a: seq<A>, b: seq<A>)
    requires forall i :: 0 <= i < |a| ==> f.requires(a[i])
    requires forall i :: 0 <= i < |b| ==> f.requires(b[i])
    ensures forall i :: 0 <= i < |a + b| ==> f.requires((a + b)[i])
    ensures Map(f, a + b) == Map(f, a) + Map(f, b)
  {
    assert forall i :: 0 <= i < |a + b| ==> (a + b)[i] == if i < |a| then a[i] else b[i - |a|];
  }

  lemma MultisetCancel<A>(x: multiset<A>, y: multiset<A>, z: multiset<A>)
    requires x + z == y + z
    ensures x == y
  {
    forall e ensures x[e] == y[e] {
      assert (x + z)[e] == (y + z)[e];
    }
  }

  /** What holds of every element of a holds of every element of a
      rearrangement of a. */
  lemma PermRequires<A, B>(f: A --> B, a: seq<A>, b: seq<A>)
    requires forall i :: 0 <= i < |a| ==> f.requires(a[i])
    requires multiset(a) == multiset(b)
    ensures forall i :: 0 <= i < |b| ==> f.requires(b[i])
  {
    forall i | 0 <= i < |b| ensures f.requires(b[i]) {
      assert b[i] in multiset(a);
      var j :| 0 <= j < |a| && a[j] == b[i];
    }
  }

  /** The first element of a sits somewhere in a rearrangement b, and the
      rest of a is a rearrangement of b without it. */
  lemma PermRemove<A>(a: seq<A>, b: seq<A>) returns (k: nat)
    requires a != [] && multiset(a) == multiset(b)
    ensures k < |b| && b[k] == a[0] && multiset(a[1..]) == multiset(b[..k] + b[k + 1..])
  {
    var x := a[0];
    assert x in multiset(b);
    k :| 0 <= k < |b| && b[k] == x;
    var b1, b2 := b[..k], b[k + 1..];
    assert b == b1 + [x] + b2;
    assert a == [x] + a[1..];
    assert multiset(b) == multiset(b1 + b2) + multiset([x]);
    assert multiset(a) == multiset(a[1..]) + multiset([x]);
    MultisetCancel(multiset(a[1..]), multiset(b1 + b2), multiset([x]));
  }

  /** The images of b1 + [x] + b2 are those of b1 + b2 and f(x). */
  lemma MapSplice<A, B>(f: A --> B, b1: seq<A>, x: A, b2: seq<A>)
    requires forall i :: 0 <= i < |b1| ==> f.requires(b1[i])
    requires forall i :: 0 <= i < |b2| ==> f.requires(b2[i])
    requires f.requires(x)
    ensures forall i :: 0 <= i < |b1 + [x] + b2| ==> f.requires((b1 + [x] + b2)[i])
    ensures forall i :: 0 <= i < |b1 + b2| ==> f.requires((b1 + b2)[i])
    ensures multiset(Map(f, b1 + [x] + b2)) == multiset(Map(f, b1 + b2)) + multiset{f(x)}
  {
    MapAppend(f, b1, b2);
    MapAppend(f, b1, [x]);
    MapAppend(f, b1 + [x], b2);
  }

  /** Putting the first element of a back at position k of the rest of b
      adds the same image to both sides. */
  lemma MapPermStep<A, B>(f: A --> B, a: seq<A>, b: seq<A>, k: nat, rest: seq<A>)
    requires a != [] && k < |b| && b[k] == a[0] && rest == b[..k] + b[k + 1..]
    requires forall i :: 0 <= i < |a| ==> f.requires(a[i])
    requires forall i :: 0 <= i < |b| ==> f.requires(b[i])
    requires forall i :: 0 <= i < |rest| ==> f.requires(rest[i])
    requires multiset(Map(f, a[1..])) == multiset(Map(f, rest))
    ensures multiset(Map(f, a)) == multiset(Map(f, b))
  {
    var x, b1, b2 := a[0], b[..k], b[k + 1..];
    assert b == b1 + [x] + b2;
    MapSplice(f, b1, x, b2);
    assert a == [] + [x] + a[1..] && [] + a[1..] == a[1..];
    MapSplice(f, [], x, a[1..]);
  }

  /** Mapping two arrangements of the same elements gives two arrangements of
      the same images. */
  lemma {:induction false} MapPerm<A, B>(f: A --> B, a: seq<A>, b: seq<A>)
    requires forall i :: 0 <= i < |a| ==> f.requires(a[i])
    requires multiset(a) == multiset(b)
    ensures forall i :: 0 <= i < |b| ==> f.requires(b[i])
    ensures multiset(Map(f, a)) == multiset(Map(f, b))
  {
    PermRequires(f, a, b);
    if a == [] {
      assert |b| == |multiset(b)| == 0;
    } else {
      var k := PermRemove(a, b);
      var rest := b[..k] + b[k + 1..];
      MapPerm(f, a[1..], rest);
      MapPermStep(f, a, b, k, rest);
    }
  }


  // ---------------------------------------------------------------------
  // Slicing

  /** How Python normalises a slice bound: a negative bound counts from the
      end, and the result is clipped to [0, len]. */
  function SliceBound(i: int, len: nat): (k: nat)
    ensures k <= len
    ensures 0 <= i <= len ==> k == i
  {
    if i < 0 then (if i + len < 0 then 0 else i + len)
    else if i > len then len
    else i
  }

  /** s[lo:hi] as Python evaluates it, including negative and out-of-range bounds. */
  function PySlice<T>(s: seq<T>, lo: int, hi: int): (r: seq<T>)
    ensures |r| <= |s|
    ensures 0 <= lo <= hi <= |s| ==> r == s[lo..hi]
    ensures r != [] ==> SliceBound(lo, |s|) < SliceBound(hi, |s|) && r == s[SliceBound(lo, |s|)..SliceBound(hi, |s|)]
  {
    var a, b := SliceBound(lo, |s|), SliceBound(hi, |s|);
    if a < b then s[a..b] else []
  }

  // ---------------------------------------------------------------------
  // Regular-expression building blocks

  /** How many characters a greedy \S+ (or \S*) consumes at position i. */
  function NonSpaceRun(s: string, i: nat): (n: nat)
    requires i <= |s|
    ensures i + n <= |s|
    decreases |s| - i
  {
    if i < |s| && !IsSpace(s[i]) then 1 + NonSpaceRun(s, i + 1) else 0
  }

  /** The run is maximal: non-whitespace throughout, and followed by
      whitespace or the end of s. */
  lemma {:induction false} NonSpaceRunSpec(s: string, i: nat)
    requires i <= |s|
    ensures forall j :: i <= j < i + NonSpaceRun(s, i) ==> !IsSpace(s[j])
    ensures i + NonSpaceRun(s, i) == |s| || IsSpace(s[i + NonSpaceRun(s, i)])
    decreases |s| - i
  {
    if i < |s| && !IsSpace(s[i]) {
      NonSpaceRunSpec(s, i + 1);
    }
  }

  /** How many characters a greedy \s* consumes at position i. */
  function SpaceRun(s: string, i: nat): (n: nat)
    requires i <= |s|
    ensures i + n <= |s|
    decreases |s| - i
  {
    if i < |s| && IsSpace(s[i]) then 1 + SpaceRun(s, i + 1) else 0
  }

  /** A non-empty run of characters none of which is whitespace: what \S+ matches. */
  predicate Token(v: string)
  {
    |v| > 0 && forall i :: 0 <= i < |v| ==> !IsSpace(v[i])
  }

  /** A run of k non-whitespace characters that ends at whitespace or at the
      end of s is exactly what NonSpaceRun measures. */
  lemma {:induction false} NonSpaceRunExact(s: string, i: nat, k: nat)
    requires i + k <= |s|
    requires forall j :: i <= j < i + k ==> !IsSpace(s[j])
    requires i + k == |s| || IsSpace(s[i + k])
    ensures NonSpaceRun(s, i) == k
    decreases k
  {
    if k > 0 {
      NonSpaceRunExact(s, i + 1, k - 1);
    }
  }

  /** The same for a run of whitespace and SpaceRun. */
  lemma {:induction false} SpaceRunExact(s: string, i: nat, k: nat)
    requires i + k <= |s|
    requires forall j :: i <= j < i + k ==> IsSpace(s[j])
    requires i + k == |s| || !IsSpace(s[i + k])
    ensures SpaceRun(s, i) == k
    decreases k
  {
    if k > 0 {
      SpaceRunExact(s, i + 1, k - 1);
    }
  }

  /** The literal lit occurs in s at position i. */
  predicate StartsAt(s: string, i: nat, lit: string)
  {
    i + |lit| <= |s| && s[i..i + |lit|] == lit
  }

  /** re.search: the match found at the leftmost position p >= i where the
      pattern, anchored by `at`, matches. */
  function FirstMatch<T>(s: string, i: nat, at: (string, nat) -> Option<T>): (r: Option<T>)
    requires i <= |s|
    decreases |s| - i
  {
    if at(s, i).Some? then at(s, i)
    else if i == |s| then None
    else FirstMatch(s, i + 1, at)
  }

  /** FirstMatch finds the leftmost position at which the pattern matches,
      and finds nothing only when it matches nowhere. */
  lemma {:induction false} FirstMatchLeftmost<T>(s: string, i: nat, at: (string, nat) -> Option<T>)
    requires i <= |s|
    ensures FirstMatch(s, i, at).Some? ==>
              exists p :: i <= p <= |s| && at(s, p) == FirstMatch(s, i, at) && forall q :: i <= q < p ==> at(s, q).None?
    ensures FirstMatch(s, i, at).None? ==> forall p :: i <= p <= |s| ==> at(s, p).None?
    decreases |s| - i
  {
    if at(s, i).None? && i < |s| {
      FirstMatchLeftmost(s, i + 1, at);
    }
  }

  /** FirstMatch answers with the first position from i on where the pattern matches. */
  lemma {:induction false} FirstMatchAt<T>(s: string, i: nat, p: nat, at: (string, nat) -> Option<T>)
    requires i <= p <= |s| && at(s, p).Some?
    requires forall q :: i <= q < p ==> at(s, q).None?
    ensures FirstMatch(s, i, at) == at(s, p)
    decreases p - i
  {
    if i < p {
      FirstMatchAt(s, i + 1, p, at);
    }
  }
}
