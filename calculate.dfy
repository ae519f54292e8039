/**
 * The amount-list parser and summer of `src/utils/calculate/calculate.ts`.
 *
 * Free text is cut at every run of ',' and '\n', each piece is trimmed, empty
 * pieces are dropped, and what remains (the segments) is converted one by
 * one: `CalculateAmountsInWei` converts with `parseEther` and drops the
 * segments it rejects; `ParseAmounts` converts with JavaScript's `Number` and
 * keeps a 0 for each segment it rejects. `CalculateTotalInWei` adds a list up.
 */
module Calculate {
  import opened Wrappers
  import opened Text
  import opened Ether
  import opened SeqFacts

  // ---------------------------------------------------------------------------
  // The shared segmentation: split, map(trim), filter(non-empty)

  /** `pieces.map(f)` */
  function MapEach(f: string -> string, pieces: seq<string>): (r: seq<string>)
    ensures |r| == |pieces| && forall k :: 0 <= k < |r| ==> r[k] == f(pieces[k])
  {
    if pieces == [] then [] else [f(pieces[0])] + MapEach(f, pieces[1..])
  }

  function TrimEach(pieces: seq<string>): seq<string>
  {
    MapEach(Trim, pieces)
  }

  function DropEmpty(xs: seq<string>): (r: seq<string>)
    ensures |r| <= |xs| && forall k :: 0 <= k < |r| ==> r[k] != []
    ensures forall k :: 0 <= k < |xs| && xs[k] != [] ==> xs[k] in r
  {
    if xs == [] then [] else (if xs[0] == [] then [] else [xs[0]]) + DropEmpty(xs[1..])
  }

  /** `.map(trim).filter(non-empty)` */
  function Clean(pieces: seq<string>): seq<string>
  {
    DropEmpty(TrimEach(pieces))
  }

  /** The trimmed, non-empty pieces of `text` between runs of separators, in order. */
  function Segments(text: string): seq<string>
  {
    Clean(Split(text))
  }

  // ---------------------------------------------------------------------------
  // calculateAmountsInWei

  function ParseEach(segments: seq<string>): (r: seq<Option<nat>>)
    ensures |r| == |segments| && forall k :: 0 <= k < |r| ==> r[k] == ParseEther(segments[k])
  {
    if segments == [] then [] else [ParseEther(segments[0])] + ParseEach(segments[1..])
  }

  /** `.filter(amt => amt !== null)`: the successful conversions, in order. */
  function KeepParsed(parsed: seq<Option<nat>>): (r: seq<nat>)
    ensures |r| <= |parsed|
    ensures forall x :: x in r ==> Some(x) in parsed
    ensures forall k :: 0 <= k < |parsed| && parsed[k].Some? ==> parsed[k].value in r
  {
    if parsed == [] then []
    else (if parsed[0].Some? then [parsed[0].value] else []) + KeepParsed(parsed[1..])
  }

  /**
   * `calculateAmountsInWei(amounts)`: the wei value of every segment that
   * `parseEther` accepts, in input order. `None` is `null` or `undefined`;
   * these, the empty string and white space alone give the empty list.
   */
  function CalculateAmountsInWei(amounts: Option<string>): seq<nat>
  {
    if amounts.None? || Trim(amounts.value) == [] then []
    else KeepParsed(ParseEach(Segments(amounts.value)))
  }

  // ---------------------------------------------------------------------------
  // parseAmounts

  /**
   * `.map(amt => isNaN(Number(amt)) ? 0 : Number(amt))`, with `toNumber`
   * standing for `Number` and `None` for NaN.
   */
  function ZeroFill(segments: seq<string>, toNumber: string -> Option<real>): (r: seq<real>)
    ensures |r| == |segments|
    ensures forall k :: 0 <= k < |r| ==> r[k] == (if toNumber(segments[k]).Some? then toNumber(segments[k]).value else 0.0)
  {
    if segments == [] then []
    else
      var x := toNumber(segments[0]);
      [if x.Some? then x.value else 0.0] + ZeroFill(segments[1..], toNumber)
  }

  /**
   * `parseAmounts(amounts)`: the same segments as `CalculateAmountsInWei`,
   * each converted by `toNumber`, with 0 kept in place of every rejected one.
   */
  function ParseAmounts(amounts: Option<string>, toNumber: string -> Option<real>): seq<real>
  {
    if amounts.None? || Trim(amounts.value) == [] then []
    else ZeroFill(Segments(amounts.value), toNumber)
  }

  // ---------------------------------------------------------------------------
  // calculateTotalInWei

  /** `amounts.reduce((sum, amt) => sum + amt, acc)`: a left fold of `+`. */
  function TotalFrom(acc: int, amounts: seq<int>): int
    decreases amounts
  {
    if amounts == [] then acc else TotalFrom(acc + amounts[0], amounts[1..])
  }

  /** `calculateTotalInWei(amounts)`: the fold started at 0. */
  function CalculateTotalInWei(amounts: seq<int>): int
  {
    TotalFrom(0, amounts)
  }

  /** The mathematical sum, as the reference for the fold. */
  function Sum(xs: seq<int>): int
  {
    if xs == [] then 0 else xs[0] + Sum(xs[1..])
  }

  // ---------------------------------------------------------------------------
  // Lemmas: the total

  lemma {:induction false} TotalFromIsSum(acc: int, amounts: seq<int>)
    ensures TotalFrom(acc, amounts) == acc + Sum(amounts)
    decreases amounts
  {
    if amounts != [] {
      TotalFromIsSum(acc + amounts[0], amounts[1..]);
    }
  }

  /** The fold computes the sum: 0 for [], x for [x], and so on. */
  lemma TotalIsSum(amounts: seq<int>)
    ensures CalculateTotalInWei(amounts) == Sum(amounts)
  {
    TotalFromIsSum(0, amounts);
  }

  lemma {:induction false} SumConcat(a: seq<int>, b: seq<int>)
    ensures Sum(a + b) == Sum(a) + Sum(b)
  {
    if a == [] {
      assert a + b == b;
    } else {
      assert (a + b)[1..] == a[1..] + b;
      SumConcat(a[1..], b);
    }
  }

  /** The total of a concatenation is the sum of the totals. */
  lemma TotalConcat(a: seq<int>, b: seq<int>)
    ensures CalculateTotalInWei(a + b) == CalculateTotalInWei(a) + CalculateTotalInWei(b)
  {
    TotalIsSum(a + b);
    TotalIsSum(a);
    TotalIsSum(b);
    SumConcat(a, b);
  }

  lemma {:induction false} SumPermutation(a: seq<int>, b: seq<int>)
    requires multiset(a) == multiset(b)
    ensures Sum(a) == Sum(b)
    decreases |a|
  {
    if a == [] {
      assert |b| == |multiset(b)| == 0;
    } else {
      assert a[0] in multiset(b);
      var j :| 0 <= j < |b| && b[j] == a[0];
      var rest := b[..j] + b[j + 1..];
      assert multiset(a[1..]) == multiset(rest) by {
        RemoveAt(b, j);
        RemoveAt(a, 0);
        assert a[..0] + a[1..] == a[1..];
      }
      SumPermutation(a[1..], rest);
      SumRemoveAt(b, j);
    }
  }

  /** Taking one amount out of a list takes it out of the sum. */
  lemma SumRemoveAt(b: seq<int>, j: nat)
    requires j < |b|
    ensures Sum(b) == b[j] + Sum(b[..j] + b[j + 1..])
  {
    var tail := [b[j]] + b[j + 1..];
    RemoveAt(b, j);
    SumConcat(b[..j], tail);
    SumConcat(b[..j], b[j + 1..]);
    assert tail[1..] == b[j + 1..];
  }

  lemma RemoveAt(b: seq<int>, j: nat)
    requires j < |b|
    ensures b == b[..j] + ([b[j]] + b[j + 1..])
    ensures multiset(b[..j] + b[j + 1..]) == multiset(b) - multiset{b[j]}
  {
    assert b == b[..j] + [b[j]] + b[j + 1..];
  }

  /** The total does not depend on the order of the amounts. */
  lemma TotalPermutation(a: seq<int>, b: seq<int>)
    requires multiset(a) == multiset(b)
    ensures CalculateTotalInWei(a) == CalculateTotalInWei(b)
  {
    TotalIsSum(a);
    TotalIsSum(b);
    SumPermutation(a, b);
  }

  /** With no negative amounts, no single amount exceeds the total. */
  lemma {:induction false} TotalBoundsEach(amounts: seq<int>, k: nat)
    requires forall i :: 0 <= i < |amounts| ==> amounts[i] >= 0
    requires k < |amounts|
    ensures 0 <= amounts[k] <= CalculateTotalInWei(amounts)
  {
    TotalIsSum(amounts);
    SumNonNegative(amounts);
    var rest := amounts[1..];
    if k > 0 {
      TotalBoundsEach(rest, k - 1);
      TotalIsSum(rest);
    } else {
      SumNonNegative(rest);
    }
  }

  lemma {:induction false} SumNonNegative(xs: seq<int>)
    requires forall i :: 0 <= i < |xs| ==> xs[i] >= 0
    ensures Sum(xs) >= 0
  {
    if xs != [] {
      SumNonNegative(xs[1..]);
    }
  }

  // ---------------------------------------------------------------------------
  // Lemmas: the segmentation

  lemma {:induction false} MapEachConcat(f: string -> string, p: seq<string>, q: seq<string>)
    ensures MapEach(f, p + q) == MapEach(f, p) + MapEach(f, q)
  {
    if p == [] {
      assert p + q == q;
    } else {
      assert (p + q)[1..] == p[1..] + q;
      MapEachConcat(f, p[1..], q);
    }
  }

  lemma {:induction false} DropEmptyConcat(p: seq<string>, q: seq<string>)
    ensures DropEmpty(p + q) == DropEmpty(p) + DropEmpty(q)
  {
    if p == [] {
      assert p + q == q;
    } else {
      assert (p + q)[1..] == p[1..] + q;
      DropEmptyConcat(p[1..], q);
    }
  }

  lemma CleanConcat(p: seq<string>, q: seq<string>)
    ensures Clean(p + q) == Clean(p) + Clean(q)
  {
    MapEachConcat(Trim, p, q);
    DropEmptyConcat(TrimEach(p), TrimEach(q));
  }

  /** The first piece of a text containing a separator, and the rest after the run. */
  lemma SegmentsUnfold(s: string, head: string, tail: string)
    requires head == Leading(s) && |head| < |s| && tail == s[|head|..]
    ensures Segments(s) == Clean([head]) + Segments(SkipSeparators(tail))
  {
    var rest := SkipSeparators(tail);
    SplitUnfold(s, head, tail);
    CleanConcat([head], Split(rest));
  }

  lemma SplitUnfold(s: string, head: string, tail: string)
    requires head == Leading(s) && |head| < |s| && tail == s[|head|..]
    ensures Split(s) == [head] + Split(SkipSeparators(tail))
  {
  }

  lemma SegmentsWhole(s: string)
    requires NoSeparator(s)
    ensures Segments(s) == Clean([s])
  {
    assert Leading(s) == s;
  }

  /** A leading run of separators contributes no segment. */
  lemma SkipLeadingSeparators(s: string)
    ensures Segments(SkipSeparators(s)) == Segments(s)
  {
    if s != [] && IsSeparator(s[0]) {
      assert Leading(s) == [];
      assert s[0..] == s;
      SegmentsUnfold(s, [], s);
    }
  }

  lemma SkipAfterSeparator(c: char, b: string)
    requires IsSeparator(c)
    ensures Leading([c] + b) == []
    ensures Segments(SkipSeparators([c] + b)) == Segments(b)
  {
    assert ([c] + b)[1..] == b;
    assert SkipSeparators([c] + b) == SkipSeparators(b);
    SkipLeadingSeparators(b);
  }

  lemma SegmentsOfEmpty()
    ensures Segments([]) == []
  {
    assert Split([]) == [[]];
  }

  /** Where `a` has no separator, `a` is the first piece of `a + [c] + b`. */
  lemma SeparatorAfterPiece(a: string, c: char, b: string)
    requires IsSeparator(c) && NoSeparator(a)
    ensures Segments(a + [c] + b) == Segments(a) + Segments(b)
  {
    var cb := [c] + b;
    var s := a + cb;
    assert a + [c] + b == s;
    assert Leading(s) == a && s[|a|..] == cb by {
      SkipAfterSeparator(c, b);
      LeadingConcat(a, cb);
      assert a + [] == a;
    }
    SegmentsUnfold(s, a, cb);
    SegmentsWhole(a);
    SkipAfterSeparator(c, b);
  }

  /** Where `a` has a separator, `a + [c] + b` starts with the same piece as `a`. */
  lemma SeparatorAfterRun(a: string, c: char, b: string)
    requires IsSeparator(c) && |Leading(a)| < |a|
    ensures var t := a[|Leading(a)|..];
      Segments(a + [c] + b) == Clean([Leading(a)]) + Segments(SkipSeparators(t + [c] + b))
    ensures Segments(a) == Clean([Leading(a)]) + Segments(SkipSeparators(a[|Leading(a)|..]))
  {
    var head := Leading(a);
    var cb := [c] + b;
    var s := a + cb;
    var t := a[|head|..];
    ConcatAssoc(a, [c], b);
    assert Leading(s) == head by {
      assert IsSeparator(a[|head|]);
      LeadingConcat(a, cb);
    }
    assert s[|head|..] == t + [c] + b by {
      DropConcat(a, |head|, cb);
      ConcatAssoc(t, [c], b);
    }
    SegmentsUnfold(s, head, t + [c] + b);
    SegmentsUnfold(a, head, t);
  }

  /** A trailing run of separators in `a` merges with `c`. */
  lemma RunThenSeparator(a: string, c: char, b: string)
    requires IsSeparator(c) && |Leading(a)| < |a| && AllSeparators(a[|Leading(a)|..])
    ensures Segments(a + [c] + b) == Segments(a) + Segments(b)
  {
    var t := a[|Leading(a)|..];
    SeparatorAfterRun(a, c, b);
    assert SkipSeparators(t + [c] + b) == SkipSeparators([c] + b) && SkipSeparators(t) == [] by {
      SkipSeparatorsConcat(t, [c] + b);
      ConcatAssoc(t, [c], b);
      SkipSeparatorsConcat(t, []);
      ConcatEmpty(t);
    }
    SkipAfterSeparator(c, b);
    SegmentsOfEmpty();
    ConcatEmpty(Clean([Leading(a)]));
  }

  /** Where more text follows the first run of separators in `a`, the first piece is set aside. */
  lemma PieceThenMore(a: string, c: char, b: string)
    requires IsSeparator(c) && |Leading(a)| < |a| && !AllSeparators(a[|Leading(a)|..])
    ensures var rest := SkipSeparators(a[|Leading(a)|..]);
      && |rest| < |a|
      && Segments(a + [c] + b) == Clean([Leading(a)]) + Segments(rest + [c] + b)
      && Segments(a) == Clean([Leading(a)]) + Segments(rest)
  {
    var t := a[|Leading(a)|..];
    SeparatorAfterRun(a, c, b);
    assert SkipSeparators(t + [c] + b) == SkipSeparators(t) + [c] + b by {
      SkipSeparatorsConcat(t, [c] + b);
      ConcatAssoc(t, [c], b);
      ConcatAssoc(SkipSeparators(t), [c], b);
    }
  }

  lemma {:induction false} SegmentsAtSeparator(a: string, c: char, b: string)
    requires IsSeparator(c)
    ensures Segments(a + [c] + b) == Segments(a) + Segments(b)
    decreases |a|
  {
    if NoSeparator(a) {
      SeparatorAfterPiece(a, c, b);
    } else {
      assert |Leading(a)| < |a|;
      if AllSeparators(a[|Leading(a)|..]) {
        RunThenSeparator(a, c, b);
      } else {
        var first := Clean([Leading(a)]);
        var rest := SkipSeparators(a[|Leading(a)|..]);
        PieceThenMore(a, c, b);
        SegmentsAtSeparator(rest, c, b);
        ConcatAssoc(first, Segments(rest), Segments(b));
      }
    }
  }

  /** A run of separators between two texts separates their segments and adds none. */
  lemma SegmentsAtSeparatorRun(a: string, run: string, b: string)
    requires run != [] && AllSeparators(run)
    ensures Segments(a + run + b) == Segments(a) + Segments(b)
  {
    var rest := run[1..];
    assert run == [run[0]] + rest;
    assert a + run + b == a + [run[0]] + (rest + b);
    SegmentsAtSeparator(a, run[0], rest + b);
    assert AllSeparators(rest);
    SkipSeparatorsConcat(rest, b);
    SkipLeadingSeparators(rest + b);
    SkipLeadingSeparators(b);
  }

  /** White space alone has no segments. */
  lemma {:induction false} BlankHasNoSegments(s: string)
    requires AllWhitespace(s)
    ensures Segments(s) == []
    decreases |s|
  {
    var head := Leading(s);
    BlankSuffix(s, 0, |head|);
    BlankPieceDropped(head);
    if |head| == |s| {
      assert head == s;
      SegmentsWhole(s);
    } else {
      var tail := s[|head|..];
      var rest := SkipSeparators(tail);
      BlankSuffix(s, |head|, |s|);
      BlankSuffix(tail, |tail| - |rest|, |tail|);
      BlankHasNoSegments(rest);
      SegmentsUnfold(s, head, tail);
      EmptyConcat<string>([]);
    }
  }

  /** Any slice of white space is white space. */
  lemma BlankSuffix(s: string, i: nat, j: nat)
    requires AllWhitespace(s) && i <= j <= |s|
    ensures AllWhitespace(s[i..j])
  {
    assert forall k | 0 <= k < j - i :: s[i..j][k] == s[i + k];
  }

  /** A piece of white space alone trims to nothing and is dropped. */
  lemma BlankPieceDropped(piece: string)
    requires AllWhitespace(piece)
    ensures Clean([piece]) == []
  {
    assert Trim(piece) == [];
    assert TrimEach([piece]) == [[]];
  }

  /** Dropping empty pieces keeps only pieces that were there. */
  lemma {:induction false} DropEmptyKeeps(xs: seq<string>)
    ensures forall x :: x in DropEmpty(xs) ==> x in xs
  {
    if xs != [] {
      DropEmptyKeeps(xs[1..]);
    }
  }

  /**
   * Every segment is non-empty, holds no separator and neither starts nor
   * ends with white space: the pieces of the split, trimmed, without the
   * empty ones.
   */
  lemma SegmentsArePlain(text: string)
    ensures forall k :: 0 <= k < |Segments(text)| ==>
      && Segments(text)[k] != []
      && NoSeparator(Segments(text)[k])
      && !IsWhitespace(Segments(text)[k][0])
      && !IsWhitespace(Segments(text)[k][|Segments(text)[k]| - 1])
  {
    var pieces := Split(text);
    var trimmed := MapEach(Trim, pieces);
    assert Segments(text) == DropEmpty(trimmed);
    SplitPiecesPlain(text);
    DropEmptyKeeps(trimmed);
    forall k | 0 <= k < |Segments(text)|
      ensures && Segments(text)[k] != []
              && NoSeparator(Segments(text)[k])
              && !IsWhitespace(Segments(text)[k][0])
              && !IsWhitespace(Segments(text)[k][|Segments(text)[k]| - 1])
    {
      var g := Segments(text)[k];
      assert g != [];
      assert g in trimmed;
      var j :| 0 <= j < |trimmed| && trimmed[j] == g;
      assert g == Trim(pieces[j]);
      TrimKeepsPlain(pieces[j]);
    }
  }

  /** A text with no separator is a single segment once trimmed, or none if it trims to nothing. */
  lemma SingleSegment(t: string)
    requires NoSeparator(t)
    ensures Segments(t) == if Trim(t) == [] then [] else [Trim(t)]
  {
    SegmentsWhole(t);
  }

  // ---------------------------------------------------------------------------
  // Lemmas: the amount lists

  /** `null`, `undefined`, "" and white space alone give the empty list, whatever `toNumber` does. */
  lemma EmptyInput(amounts: Option<string>, toNumber: string -> Option<real>)
    requires amounts.None? || AllWhitespace(amounts.value)
    ensures CalculateAmountsInWei(amounts) == []
    ensures ParseAmounts(amounts, toNumber) == []
  {
  }

  /**
   * The early return for blank input gives what the pipeline gives anyway:
   * both functions are the pipeline on every text.
   */
  lemma GuardAgreesWithPipeline(text: string, toNumber: string -> Option<real>)
    ensures CalculateAmountsInWei(Some(text)) == KeepParsed(ParseEach(Segments(text)))
    ensures ParseAmounts(Some(text), toNumber) == ZeroFill(Segments(text), toNumber)
  {
    if Trim(text) == [] {
      BlankHasNoSegments(text);
    }
  }

  lemma {:induction false} ParseEachConcat(p: seq<string>, q: seq<string>)
    ensures ParseEach(p + q) == ParseEach(p) + ParseEach(q)
  {
    if p == [] {
      assert p + q == q;
    } else {
      assert (p + q)[1..] == p[1..] + q;
      ParseEachConcat(p[1..], q);
    }
  }

  lemma {:induction false} KeepParsedConcat(p: seq<Option<nat>>, q: seq<Option<nat>>)
    ensures KeepParsed(p + q) == KeepParsed(p) + KeepParsed(q)
  {
    if p == [] {
      EmptyConcat(q);
    } else {
      var head := if p[0].Some? then [p[0].value] else [];
      assert (p + q)[0] == p[0];
      assert (p + q)[1..] == p[1..] + q;
      KeepParsedConcat(p[1..], q);
      ConcatAssoc(head, KeepParsed(p[1..]), KeepParsed(q));
    }
  }

  lemma {:induction false} ZeroFillConcat(p: seq<string>, q: seq<string>, toNumber: string -> Option<real>)
    ensures ZeroFill(p + q, toNumber) == ZeroFill(p, toNumber) + ZeroFill(q, toNumber)
  {
    if p == [] {
      assert p + q == q;
    } else {
      assert (p + q)[1..] == p[1..] + q;
      ZeroFillConcat(p[1..], q, toNumber);
    }
  }

  /**
   * A run of ',' and '\n' between two texts: the amounts of the whole are the
   * amounts of the left text followed by those of the right one.
   */
  lemma AmountsAtSeparatorRun(a: string, run: string, b: string, toNumber: string -> Option<real>)
    requires run != [] && AllSeparators(run)
    ensures CalculateAmountsInWei(Some(a + run + b)) == CalculateAmountsInWei(Some(a)) + CalculateAmountsInWei(Some(b))
    ensures ParseAmounts(Some(a + run + b), toNumber) == ParseAmounts(Some(a), toNumber) + ParseAmounts(Some(b), toNumber)
  {
    SegmentsAtSeparatorRun(a, run, b);
    GuardAgreesWithPipeline(a + run + b, toNumber);
    GuardAgreesWithPipeline(a, toNumber);
    GuardAgreesWithPipeline(b, toNumber);
    ParseEachConcat(Segments(a), Segments(b));
    KeepParsedConcat(ParseEach(Segments(a)), ParseEach(Segments(b)));
    ZeroFillConcat(Segments(a), Segments(b), toNumber);
  }

  /** Consecutive separators act as one: "1,,,2\n\n\n3" reads like "1,2,3". */
  lemma SeparatorRunsCollapse(a: string, run: string, b: string)
    requires run != [] && AllSeparators(run)
    ensures CalculateAmountsInWei(Some(a + run + b)) == CalculateAmountsInWei(Some(a + "," + b))
  {
    var toNumber := (t: string) => None;
    AmountsAtSeparatorRun(a, run, b, toNumber);
    AmountsAtSeparatorRun(a, ",", b, toNumber);
  }

  /** Separators before the first amount are ignored. */
  lemma LeadingSeparatorsIgnored(run: string, b: string)
    requires run != [] && AllSeparators(run)
    ensures CalculateAmountsInWei(Some(run + b)) == CalculateAmountsInWei(Some(b))
  {
    var toNumber := (t: string) => None;
    AmountsAtSeparatorRun([], run, b, toNumber);
    EmptyConcat(run);
    EmptyInput(Some([]), toNumber);
    EmptyConcat(CalculateAmountsInWei(Some(b)));
  }

  /** Separators after the last amount are ignored. */
  lemma TrailingSeparatorsIgnored(a: string, run: string)
    requires run != [] && AllSeparators(run)
    ensures CalculateAmountsInWei(Some(a + run)) == CalculateAmountsInWei(Some(a))
  {
    var toNumber := (t: string) => None;
    AmountsAtSeparatorRun(a, run, [], toNumber);
    ConcatEmpty(a + run);
    EmptyInput(Some([]), toNumber);
    ConcatEmpty(CalculateAmountsInWei(Some(a)));
  }

  /**
   * A text without separators is one amount: the parsed value of its trimmed
   * text, no amount at all if `parseEther` rejects it, and none if it is blank.
   */
  lemma SingleAmount(t: string, toNumber: string -> Option<real>)
    requires NoSeparator(t)
    ensures CalculateAmountsInWei(Some(t)) == (if ParseEther(Trim(t)).Some? then [ParseEther(Trim(t)).value] else [])
    ensures ParseAmounts(Some(t), toNumber) ==
      (if Trim(t) == [] then []
       else if toNumber(Trim(t)).Some? then [toNumber(Trim(t)).value]
       else [0.0])
  {
    SingleSegment(t);
    GuardAgreesWithPipeline(t, toNumber);
    if Trim(t) == [] {
      assert ParseEther(Trim(t)).None? by {
        ParseUnitsAccepts([], EtherDecimals);
      }
    }
  }

  lemma {:induction false} KeepParsedCount(parsed: seq<Option<nat>>)
    ensures |KeepParsed(parsed)| == |parsed| <==> forall k :: 0 <= k < |parsed| ==> parsed[k].Some?
  {
    if parsed != [] {
      KeepParsedCount(parsed[1..]);
      if forall k :: 0 <= k < |parsed[1..]| ==> parsed[1..][k].Some? {
        if parsed[0].Some? {
          forall k | 0 <= k < |parsed| ensures parsed[k].Some? {
            if k > 0 {
              assert parsed[k] == parsed[1..][k - 1];
            }
          }
        }
      } else {
        var k :| 0 <= k < |parsed[1..]| && parsed[1..][k].None?;
        assert parsed[k + 1].None?;
      }
    }
  }

  /**
   * `calculateAmountsInWei` yields at most one amount per segment, and
   * exactly one per segment when `parseEther` accepts every segment.
   */
  lemma AmountsCount(text: string)
    ensures |CalculateAmountsInWei(Some(text))| <= |Segments(text)|
    ensures |CalculateAmountsInWei(Some(text))| == |Segments(text)| <==>
      forall k :: 0 <= k < |Segments(text)| ==> ParseEther(Segments(text)[k]).Some?
  {
    ParsedCount(Segments(text));
    GuardAgreesWithPipeline(text, (t: string) => None);
  }

  /** The segments `parseEther` accepts are all kept, and only they. */
  lemma ParsedCount(segments: seq<string>)
    ensures |KeepParsed(ParseEach(segments))| <= |segments|
    ensures |KeepParsed(ParseEach(segments))| == |segments| <==>
      forall k :: 0 <= k < |segments| ==> ParseEther(segments[k]).Some?
  {
    KeepParsedCount(ParseEach(segments));
  }

  /** Every amount is the value `parseEther` gives for one of the segments. */
  lemma AmountsComeFromSegments(text: string)
    ensures forall x :: x in CalculateAmountsInWei(Some(text)) ==>
      exists k :: 0 <= k < |Segments(text)| && ParseEther(Segments(text)[k]) == Some(x)
  {
    var parsed := ParseEach(Segments(text));
    assert CalculateAmountsInWei(Some(text)) == KeepParsed(parsed) by {
      GuardAgreesWithPipeline(text, (t: string) => None);
    }
    forall x | x in KeepParsed(parsed)
      ensures exists k :: 0 <= k < |Segments(text)| && ParseEther(Segments(text)[k]) == Some(x)
    {
      var k :| 0 <= k < |parsed| && parsed[k] == Some(x);
      assert ParseEther(Segments(text)[k]) == Some(x);
    }
  }

  /**
   * `parseAmounts` keeps one number per segment, in order, with 0 for every
   * segment `toNumber` rejects; so it never has fewer entries than
   * `calculateAmountsInWei` on the same text.
   */
  lemma ParseAmountsShape(text: string, toNumber: string -> Option<real>)
    ensures |ParseAmounts(Some(text), toNumber)| == |Segments(text)|
    ensures forall k :: 0 <= k < |Segments(text)| ==>
      ParseAmounts(Some(text), toNumber)[k] ==
        (if toNumber(Segments(text)[k]).Some? then toNumber(Segments(text)[k]).value else 0.0)
    ensures |CalculateAmountsInWei(Some(text))| <= |ParseAmounts(Some(text), toNumber)|
  {
    assert ParseAmounts(Some(text), toNumber) == ZeroFill(Segments(text), toNumber) by {
      GuardAgreesWithPipeline(text, toNumber);
    }
    AmountsCount(text);
  }
}
