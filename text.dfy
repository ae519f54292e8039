/**
 * The two JavaScript string operations the amount parser is built from:
 * `String.prototype.split(/[,\n]+/)` and `String.prototype.trim()`.
 */
module Text {

  /** A character of the separator class `[,\n]`. */
  predicate IsSeparator(c: char) {
    c == ',' || c == '\n'
  }

  /** ECMAScript WhiteSpace and LineTerminator code points, which `trim()` removes. */
  predicate IsWhitespace(c: char) {
    var u := c as int;
    || u == 0x09 || u == 0x0A || u == 0x0B || u == 0x0C || u == 0x0D
    || u == 0x20 || u == 0xA0 || u == 0x1680
    || (0x2000 <= u <= 0x200A)
    || u == 0x2028 || u == 0x2029 || u == 0x202F || u == 0x205F
    || u == 0x3000 || u == 0xFEFF
  }

  predicate AllWhitespace(s: string) {
    forall i :: 0 <= i < |s| ==> IsWhitespace(s[i])
  }

  predicate AllSeparators(s: string) {
    forall i :: 0 <= i < |s| ==> IsSeparator(s[i])
  }

  predicate NoSeparator(s: string) {
    forall i :: 0 <= i < |s| ==> !IsSeparator(s[i])
  }

  // ---------------------------------------------------------------------------
  // trim()

  function TrimStart(s: string): (r: string)
    ensures |r| <= |s| && r == s[|s| - |r|..]
    ensures forall i :: 0 <= i < |s| - |r| ==> IsWhitespace(s[i])
    ensures r == [] || !IsWhitespace(r[0])
  {
    if s != [] && IsWhitespace(s[0]) then TrimStart(s[1..]) else s
  }

  function TrimEnd(s: string): (r: string)
    ensures |r| <= |s| && r == s[..|r|]
    ensures forall i :: |r| <= i < |s| ==> IsWhitespace(s[i])
    ensures r == [] || !IsWhitespace(r[|r| - 1])
  {
    if s != [] && IsWhitespace(s[|s| - 1]) then TrimEnd(s[..|s| - 1]) else s
  }

  /**
   * `s.trim()`: the text left once leading and trailing white space is cut
   * off. It is empty exactly when `s` is nothing but white space.
   */
  function Trim(s: string): (r: string)
    ensures exists i, j :: 0 <= i <= j <= |s| && r == s[i..j] && AllWhitespace(s[..i]) && AllWhitespace(s[j..])
    ensures r == [] <==> AllWhitespace(s)
    ensures r == [] || (!IsWhitespace(r[0]) && !IsWhitespace(r[|r| - 1]))
  {
    var t := TrimStart(s);
    var r := TrimEnd(t);
    assert r == [] ==> AllWhitespace(s) by {
      if r == [] {
        assert t == [];
      }
    }
    var i := |s| - |t|;
    assert r == s[i..i + |r|] && AllWhitespace(s[..i]) && AllWhitespace(s[i + |r|..]) by {
      TrimSlices(s, t, r);
    }
    r
  }

  /**
   * Where the two cuts of `trim()` fall in the original text: `t` is a
   * suffix of `s` after white space, and `r` a prefix of `t` before white space.
   */
  lemma TrimSlices(s: string, t: string, r: string)
    requires |t| <= |s| && t == s[|s| - |t|..]
    requires |r| <= |t| && r == t[..|r|]
    requires forall k :: 0 <= k < |s| - |t| ==> IsWhitespace(s[k])
    requires forall k :: |r| <= k < |t| ==> IsWhitespace(t[k])
    ensures r == s[|s| - |t|..|s| - |t| + |r|]
    ensures AllWhitespace(s[..|s| - |t|]) && AllWhitespace(s[|s| - |t| + |r|..])
  {
    var i := |s| - |t|;
    assert s[i + |r|..] == t[|r|..];
  }

  /** Text without white space is left as it is by `trim()`. */
  lemma TrimKeeps(s: string)
    requires forall i :: 0 <= i < |s| ==> !IsWhitespace(s[i])
    ensures Trim(s) == s
  {
    assert TrimStart(s) == s;
    assert TrimEnd(s) == s;
  }

  // ---------------------------------------------------------------------------
  // split(/[,\n]+/)

  /** The longest prefix of `s` that holds no separator. */
  function Leading(s: string): (r: string)
    ensures |r| <= |s| && r == s[..|r|] && NoSeparator(r)
    ensures |r| < |s| ==> IsSeparator(s[|r|])
  {
    if s == [] || IsSeparator(s[0]) then [] else [s[0]] + Leading(s[1..])
  }

  /** `s` without its leading run of separators. */
  function SkipSeparators(s: string): (r: string)
    ensures |r| <= |s| && r == s[|s| - |r|..]
    ensures forall i :: 0 <= i < |s| - |r| ==> IsSeparator(s[i])
    ensures r == [] || !IsSeparator(r[0])
  {
    if s != [] && IsSeparator(s[0]) then SkipSeparators(s[1..]) else s
  }

  /**
   * `s.split(/[,\n]+/)`: the pieces between maximal runs of separators, in
   * order. A leading (trailing) run yields an empty first (last) piece, and
   * the empty string yields one empty piece.
   */
  function Split(s: string): (pieces: seq<string>)
    ensures |pieces| >= 1
    decreases |s|
  {
    var head := Leading(s);
    if |head| == |s| then [s]
    else
      var rest := SkipSeparators(s[|head|..]);
      assert |rest| < |s[|head|..]|;
      [head] + Split(rest)
  }

  /** No piece of a split holds a separator. */
  lemma {:induction false} SplitPiecesPlain(s: string)
    ensures forall k :: 0 <= k < |Split(s)| ==> NoSeparator(Split(s)[k])
    decreases |s|
  {
    var head := Leading(s);
    if |head| < |s| {
      var rest := SkipSeparators(s[|head|..]);
      SplitPiecesPlain(rest);
      assert Split(s) == [head] + Split(rest);
      forall k | 0 <= k < |Split(s)| ensures NoSeparator(Split(s)[k]) {
        if k > 0 {
          assert Split(s)[k] == Split(rest)[k - 1];
        }
      }
    }
  }

  /** `trim()` only cuts characters off the ends, so it adds no separator. */
  lemma TrimKeepsPlain(s: string)
    requires NoSeparator(s)
    ensures NoSeparator(Trim(s))
  {
    var t := TrimStart(s);
    assert NoSeparator(t) by {
      PlainSlice(s, |s| - |t|, |s|);
      assert s[|s| - |t|..|s|] == t;
    }
    PlainSlice(t, 0, |TrimEnd(t)|);
  }

  lemma PlainSlice(s: string, i: nat, j: nat)
    requires NoSeparator(s) && i <= j <= |s|
    ensures NoSeparator(s[i..j])
  {
    assert forall k | 0 <= k < j - i :: s[i..j][k] == s[i + k];
  }

  // ---------------------------------------------------------------------------
  // How the two scans behave on a concatenation

  lemma {:induction false} LeadingConcat(a: string, x: string)
    ensures Leading(a + x) == if NoSeparator(a) then a + Leading(x) else Leading(a)
  {
    if a != [] {
      assert (a + x)[1..] == a[1..] + x;
      LeadingConcat(a[1..], x);
    } else {
      assert a + x == x;
    }
  }

  lemma {:induction false} SkipSeparatorsConcat(a: string, x: string)
    ensures SkipSeparators(a + x) == if AllSeparators(a) then SkipSeparators(x) else SkipSeparators(a) + x
  {
    if a == [] {
      assert a + x == x;
    } else if IsSeparator(a[0]) {
      assert (a + x)[1..] == a[1..] + x;
      assert AllSeparators(a) == AllSeparators(a[1..]) by {
        if AllSeparators(a[1..]) {
          forall i | 0 <= i < |a| ensures IsSeparator(a[i]) {
            if i > 0 {
              assert a[i] == a[1..][i - 1];
            }
          }
        }
      }
      SkipSeparatorsConcat(a[1..], x);
    } else {
      assert !AllSeparators(a);
      assert (a + x)[0] == a[0];
    }
  }
}
