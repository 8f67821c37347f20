/** The parts of Go's `strings` package the server uses: `Index`, `Split`,
    `Join` and `ToLower`. A `char` stands for one byte of a Go string. */
module GoStrings {
  import opened Options

  /** `sep` occurs in `s` starting at index `i`. */
  predicate OccursAt(s: string, sep: string, i: nat)
  {
    i + |sep| <= |s| && s[i..i + |sep|] == sep
  }

  /** `sep` occurs somewhere in `s`. */
  predicate Contains(s: string, sep: string)
  {
    exists i: nat | i <= |s| :: OccursAt(s, sep, i)
  }

  /** The character `c` does not appear in `s`. */
  predicate NoChar(s: string, c: char)
  {
    forall k :: 0 <= k < |s| ==> s[k] != c
  }

  /** The first occurrence of `sep` in `s` at or after `from`. */
  function IndexFrom(s: string, sep: string, from: nat): (r: Option<nat>)
    requires |sep| > 0
    ensures r.Some? ==> from <= r.value && OccursAt(s, sep, r.value)
    ensures r.Some? ==> forall j: nat :: from <= j < r.value ==> !OccursAt(s, sep, j)
    ensures r.None? ==> forall j: nat :: from <= j ==> !OccursAt(s, sep, j)
    decreases |s| - from
  {
    if from + |sep| > |s| then None
    else if s[from..from + |sep|] == sep then Some(from)
    else IndexFrom(s, sep, from + 1)
  }

  /** Go's `strings.Index` for a non-empty separator (None stands for -1). */
  function Index(s: string, sep: string): (r: Option<nat>)
    requires |sep| > 0
    ensures r.Some? <==> Contains(s, sep)
  {
    IndexFrom(s, sep, 0)
  }

  /** Go's `strings.Split` for a non-empty separator: the pieces around every
      non-overlapping occurrence of `sep`, scanning left to right. */
  function Split(s: string, sep: string): (parts: seq<string>)
    requires |sep| > 0
    ensures |parts| >= 1
    decreases |s|
  {
    match Index(s, sep)
    case None => [s]
    case Some(i) => [s[..i]] + Split(s[i + |sep|..], sep)
  }

  /** Go's `strings.Join`. */
  function Join(parts: seq<string>, sep: string): string
  {
    if |parts| == 0 then ""
    else if |parts| == 1 then parts[0]
    else parts[0] + sep + Join(parts[1..], sep)
  }

  /** ASCII lower-casing of one byte. */
  function LowerChar(c: char): char
  {
    if 'A' <= c <= 'Z' then (c as int + 32) as char else c
  }

  /** Go's `strings.ToLower` on ASCII text. */
  function ToLower(s: string): (r: string)
    ensures |r| == |s|
  {
    seq(|s|, i requires 0 <= i < |s| => LowerChar(s[i]))
  }

  // ---------------------------------------------------------------------
  // Lemmas
  // ---------------------------------------------------------------------

  /** The text in front of the first occurrence holds no occurrence. */
  lemma NoOccurrenceBefore(s: string, sep: string, i: nat)
    requires |sep| > 0
    requires i <= |s|
    requires forall j: nat :: j < i ==> !OccursAt(s, sep, j)
    ensures !Contains(s[..i], sep)
  {
    forall j: nat | OccursAt(s[..i], sep, j)
      ensures false
    {
      assert s[..i][j..j + |sep|] == s[j..j + |sep|];
      assert OccursAt(s, sep, j);
    }
  }

  /** Splitting and joining again gives back the original text, and the
      pieces are free of the separator, as `SplitJoin` asks of its input. */
  lemma {:induction false} JoinSplit(s: string, sep: string)
    requires |sep| > 0
    ensures Join(Split(s, sep), sep) == s
    ensures forall k :: 0 <= k < |Split(s, sep)| ==> !Contains(Split(s, sep)[k], sep)
    decreases |s|
  {
    SplitPiecesFree(s, sep);
    var r := Index(s, sep);
    if r.Some? {
      var i := r.value;
      var rest := s[i + |sep|..];
      JoinSplit(rest, sep);
      JoinCons(s[..i], Split(rest, sep), sep);
      SliceAround(s, i, |sep|);
    }
  }

  /** Joining a non-empty tail after a head puts one separator between them. */
  lemma JoinCons(head: string, tail: seq<string>, sep: string)
    requires |tail| >= 1
    ensures Join([head] + tail, sep) == head + sep + Join(tail, sep)
  {
    assert ([head] + tail)[1..] == tail;
  }

  /** Splitting `s` around the window `s[i..i + n]`. */
  lemma SliceAround(s: string, i: nat, n: nat)
    requires i + n <= |s|
    ensures s == s[..i] + s[i..i + n] + s[i + n..]
  {
  }

  /** No piece of a split holds the separator. */
  lemma {:induction false} SplitPiecesFree(s: string, sep: string)
    requires |sep| > 0
    ensures forall k :: 0 <= k < |Split(s, sep)| ==> !Contains(Split(s, sep)[k], sep)
    decreases |s|
  {
    var r := Index(s, sep);
    if r.Some? {
      var i := r.value;
      NoOccurrenceBefore(s, sep, i);
      SplitPiecesFree(s[i + |sep|..], sep);
    }
  }

  /** A separator of at most two distinct characters that does not occur in
      `x` is found first right after `x`. */
  lemma IndexAfter(x: string, sep: string, y: string)
    requires 0 < |sep| <= 2
    requires |sep| == 2 ==> sep[0] != sep[1]
    requires !Contains(x, sep)
    ensures Index(x + sep + y, sep) == Some(|x|)
  {
    var s := x + sep + y;
    assert s[|x|..|x| + |sep|] == sep;
    assert OccursAt(s, sep, |x|);
    forall j: nat | j < |x| && OccursAt(s, sep, j)
      ensures false
    {
      if j + |sep| <= |x| {
        assert x[j..j + |sep|] == s[j..j + |sep|];
        assert OccursAt(x, sep, j);
      }
    }
  }

  /** Splitting `x + sep + y` yields `x` and then the pieces of `y`. */
  lemma SplitAfter(x: string, sep: string, y: string)
    requires 0 < |sep| <= 2
    requires |sep| == 2 ==> sep[0] != sep[1]
    requires !Contains(x, sep)
    ensures Split(x + sep + y, sep) == [x] + Split(y, sep)
  {
    IndexAfter(x, sep, y);
    var s := x + sep + y;
    assert s[..|x|] == x;
    assert s[|x| + |sep|..] == y;
  }

  /** Text free of a separator splits into itself alone. */
  lemma SplitNone(x: string, sep: string)
    requires |sep| > 0
    requires !Contains(x, sep)
    ensures Split(x, sep) == [x]
  {
  }

  /** Text without a character `c` contains no separator ending in `c`. */
  lemma NoCharNoContains(x: string, sep: string)
    requires |sep| > 0
    requires NoChar(x, sep[|sep| - 1])
    ensures !Contains(x, sep)
  {
    forall j: nat | OccursAt(x, sep, j)
      ensures false
    {
    }
  }

  /** Lower-casing distributes over concatenation. */
  lemma ToLowerConcat(a: string, b: string)
    ensures ToLower(a + b) == ToLower(a) + ToLower(b)
  {
  }

  /** The first piece of a split is the text before the first separator;
      the remaining pieces split what follows it. */
  lemma SplitHead(s: string, sep: string)
    requires |sep| > 0
    ensures Split(s, sep)[0] <= s
    ensures !Contains(Split(s, sep)[0], sep)
    ensures |Split(s, sep)| >= 2 <==> Contains(s, sep)
    ensures |Split(s, sep)| == 1 ==> Split(s, sep)[0] == s
    ensures |Split(s, sep)| >= 2 ==>
      var n := |Split(s, sep)[0]|;
      && Index(s, sep) == Some(n)
      && Split(s, sep)[0] + sep <= s
      && Split(s, sep)[1..] == Split(s[n + |sep|..], sep)
  {
    if Contains(s, sep) {
      SplitHeadWith(s, sep);
      var i := Index(s, sep).value;
      assert Split(s, sep)[0] == s[..i];
      assert Split(s, sep)[1..] == Split(s[i + |sep|..], sep);
    } else {
      SplitHeadWithout(s, sep);
    }
  }

  /** Without a separator the split is the whole text. */
  lemma SplitHeadWithout(s: string, sep: string)
    requires |sep| > 0
    ensures !Contains(s, sep) ==> Split(s, sep) == [s]
  {
    if !Contains(s, sep) {
      SplitWhole(s, sep);
    }
  }

  /** With one, the split is the text before the first separator and the
      pieces of the text after it. */
  lemma SplitHeadWith(s: string, sep: string)
    requires |sep| > 0
    ensures Contains(s, sep) ==>
      var i := Index(s, sep).value;
      && Index(s, sep).Some?
      && Split(s, sep) == [s[..i]] + Split(s[i + |sep|..], sep)
      && s[..i] + sep <= s
      && !Contains(s[..i], sep)
  {
    if Contains(s, sep) {
      var i := Index(s, sep).value;
      NoOccurrenceBefore(s, sep, i);
      SplitAt(s, sep, i);
      SepAt(s, sep, i);
    }
  }

  lemma SplitWhole(s: string, sep: string)
    requires |sep| > 0 && Index(s, sep).None?
    ensures Split(s, sep) == [s]
  {
  }

  lemma SplitAt(s: string, sep: string, i: nat)
    requires |sep| > 0 && Index(s, sep) == Some(i)
    ensures Split(s, sep) == [s[..i]] + Split(s[i + |sep|..], sep)
  {
  }

  lemma SepAt(s: string, sep: string, i: nat)
    requires |sep| > 0 && Index(s, sep) == Some(i)
    ensures s[..i] + sep <= s
  {
    assert s[..i] + sep == s[..i + |sep|];
  }

  /** The first piece of a split runs to the end of the text or to an
      occurrence of the separator. */
  lemma FirstPieceEnds(s: string, sep: string)
    requires |sep| > 0
    ensures Split(s, sep)[0] <= s && !Contains(Split(s, sep)[0], sep)
    ensures Split(s, sep)[0] == s || OccursAt(s, sep, |Split(s, sep)[0]|)
  {
    SplitHead(s, sep);
    if |Split(s, sep)| >= 2 {
      IndexIsOccurrence(s, sep);
    }
  }

  lemma IndexIsOccurrence(s: string, sep: string)
    requires |sep| > 0 && Index(s, sep).Some?
    ensures OccursAt(s, sep, Index(s, sep).value)
  {
  }

  /** The first piece of a split is the text up to the first separator, or
      all of it. */
  lemma FirstPieceAt(s: string, sep: string)
    requires |sep| > 0
    ensures Split(s, sep)[0] == match Index(s, sep) case None => s case Some(i) => s[..i]
  {
  }

  /** Concatenation regrouped, in the shapes the proofs about texts need. */
  lemma Regroup(a: string, b: string, c: string, d: string, e: string)
    ensures a + b + c == a + (b + c)
    ensures a + b + c + d == a + (b + c + d)
    ensures a + b + c + d == a + b + (c + d)
    ensures a + b + c + d + e == a + b + (c + d + e)
    ensures a + b + c + d + e == a + (b + c + d + e)
  {
  }

  /** Occurrences inside a prefix `s[..h]` are the occurrences in `s` that
      end by `h`. */
  lemma IndexInPrefix(s: string, sep: string, h: nat)
    requires |sep| > 0 && h <= |s|
    ensures Index(s, sep).Some? && Index(s, sep).value + |sep| <= h ==> Index(s[..h], sep) == Index(s, sep)
    ensures (Index(s, sep).None? || Index(s, sep).value + |sep| > h) ==> Index(s[..h], sep).None?
  {
    forall j: nat | OccursAt(s[..h], sep, j)
      ensures OccursAt(s, sep, j)
    {
      assert s[..h][j..j + |sep|] == s[j..j + |sep|];
    }
    match Index(s, sep)
    case None =>
    case Some(c) =>
      if c + |sep| <= h {
        assert s[..h][c..c + |sep|] == s[c..c + |sep|];
        assert OccursAt(s[..h], sep, c);
      }
  }

  /** A one-character separator occurs exactly where its character does. */
  lemma ContainsChar(x: string, c: char)
    ensures !Contains(x, [c]) <==> NoChar(x, c)
  {
    if !NoChar(x, c) {
      var k :| 0 <= k < |x| && x[k] == c;
      assert x[k..k + 1] == [c];
      assert OccursAt(x, [c], k);
    } else {
      NoCharNoContains(x, [c]);
    }
  }

  /** Joining pieces free of a short separator and splitting again gives the
      pieces back. */
  lemma {:induction false} SplitJoin(parts: seq<string>, sep: string)
    requires 0 < |sep| <= 2
    requires |sep| == 2 ==> sep[0] != sep[1]
    requires |parts| >= 1
    requires forall k :: 0 <= k < |parts| ==> !Contains(parts[k], sep)
    ensures Split(Join(parts, sep), sep) == parts
    decreases |parts|
  {
    if |parts| == 1 {
      SplitNone(parts[0], sep);
    } else {
      var rest := parts[1..];
      forall k | 0 <= k < |rest|
        ensures !Contains(rest[k], sep)
      {
        assert rest[k] == parts[k + 1];
      }
      SplitJoin(rest, sep);
      var joined := Join(rest, sep);
      assert Join(parts, sep) == parts[0] + sep + joined;
      SplitAfter(parts[0], sep, joined);
      assert parts == [parts[0]] + rest;
    }
  }
}
