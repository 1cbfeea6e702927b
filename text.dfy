/** Byte strings and the parts of Go's `strings` package the core relies on.
    Go strings are immutable byte sequences holding UTF-8; `len` and slicing
    count bytes, so every text in this model is a `Bytes`. */
module Text {

  newtype byte = b: int | 0 <= b < 256

  type Bytes = seq<byte>

  datatype Option<+T> = None | Some(value: T)

  const NUL: byte := 0x00
  const TAB: byte := 0x09
  const NL: byte := 0x0A
  const SPACE: byte := 0x20

  // ---------------------------------------------------------------------
  // UTF-8: how a Go source literal becomes bytes.

  /** The UTF-8 encoding of one Unicode scalar value. */
  function EncodeChar(c: char): (r: Bytes)
    ensures 1 <= |r| <= 4
    ensures (|r| == 1) == (c as int < 0x80)
    ensures |r| == 1 ==> r[0] as int == c as int
    ensures |r| > 1 ==> forall i | 0 <= i < |r| :: r[i] >= 0x80
  {
    var n := c as int;
    if n < 0x80 then [n as byte]
    else if n < 0x800 then
      [(0xC0 + n / 0x40) as byte, (0x80 + n % 0x40) as byte]
    else if n < 0x10000 then
      [(0xE0 + n / 0x1000) as byte, (0x80 + n / 0x40 % 0x40) as byte, (0x80 + n % 0x40) as byte]
    else
      [(0xF0 + n / 0x40000) as byte, (0x80 + n / 0x1000 % 0x40) as byte,
       (0x80 + n / 0x40 % 0x40) as byte, (0x80 + n % 0x40) as byte]
  }

  /** The UTF-8 encoding of a string, as a Go string literal is stored. */
  function Utf8(s: string): Bytes {
    Utf8From(s, 0)
  }

  /** The encoding of the characters of `s` from index `i` on. */
  function Utf8From(s: string, i: nat): Bytes
    decreases |s| - i
  {
    if i >= |s| then [] else EncodeChar(s[i]) + Utf8From(s, i + 1)
  }

  /** Every character is in the ASCII range. */
  predicate IsAscii(s: string) {
    forall i | 0 <= i < |s| :: s[i] as int < 0x80
  }

  /** The bytes of an ASCII string, one per character. */
  function AsciiBytes(s: string): (r: Bytes)
    requires IsAscii(s)
    ensures |r| == |s|
    ensures forall i | 0 <= i < |s| :: r[i] as int == s[i] as int
  {
    seq(|s|, i requires 0 <= i < |s| => s[i] as int as byte)
  }

  /** A character absent from an ASCII string has no byte in its bytes. */
  lemma AsciiBytesLack(s: string, c: char)
    requires IsAscii(s) && c as int < 0x80 && c !in s
    ensures (c as int as byte) !in AsciiBytes(s)
  {
    var r := AsciiBytes(s);
    forall i | 0 <= i < |r| ensures r[i] != c as int as byte {
      assert s[i] in s;
    }
  }

  /** For ASCII text the UTF-8 encoding is one byte per character. */
  lemma AsciiIsUtf8(s: string)
    requires IsAscii(s)
    ensures Utf8(s) == AsciiBytes(s)
  {
    AsciiFromIsUtf8(s, 0);
  }

  lemma {:induction false} AsciiFromIsUtf8(s: string, i: nat)
    requires IsAscii(s) && i <= |s|
    ensures Utf8From(s, i) == AsciiBytes(s)[i..]
    decreases |s| - i
  {
    if i < |s| {
      AsciiFromIsUtf8(s, i + 1);
      assert AsciiBytes(s)[i..] == [AsciiBytes(s)[i]] + AsciiBytes(s)[i + 1..];
    }
  }

  /** An ASCII character that does not occur in a string does not occur in
      its encoding either: multi-byte sequences use only bytes >= 0x80. */
  lemma Utf8AsciiAbsent(s: string, c: char)
    requires c as int < 0x80
    requires c !in s
    ensures (c as int as byte) !in Utf8(s)
  {
    Utf8FromAsciiAbsent(s, c, 0);
  }

  lemma {:induction false} Utf8FromAsciiAbsent(s: string, c: char, i: nat)
    requires c as int < 0x80
    requires c !in s
    ensures (c as int as byte) !in Utf8From(s, i)
    decreases |s| - i
  {
    if i < |s| {
      assert s[i] != c;
      Utf8FromAsciiAbsent(s, c, i + 1);
    }
  }

  /** Concatenation is associative. */
  lemma AppendAssoc(p: Bytes, x: Bytes, y: Bytes)
    ensures p + (x + y) == (p + x) + y
  {
  }

  /** Seven pieces regrouped as a left part and a right part. */
  lemma Regroup(a: Bytes, b: Bytes, c: Bytes, d: Bytes, e: Bytes, f: Bytes, g: Bytes)
    ensures a + b + c + d + e + f + g == (a + b + (c + d)) + (e + f + g)
  {
  }

  // ---------------------------------------------------------------------
  // Subsequences: "only deletes bytes, never reorders or adds".

  /** `a` can be obtained from `b` by deleting bytes. */
  predicate IsSubsequence(a: Bytes, b: Bytes)
    decreases |b|
  {
    if a == [] then true
    else if b == [] then false
    else if a[0] == b[0] then IsSubsequence(a[1..], b[1..])
    else IsSubsequence(a, b[1..])
  }

  lemma {:induction false} SubsequenceRefl(a: Bytes)
    ensures IsSubsequence(a, a)
  {
    if a != [] {
      SubsequenceRefl(a[1..]);
    }
  }

  lemma {:induction false} SubsequenceDropFront(a: Bytes, b: Bytes, k: nat)
    requires k <= |b|
    requires IsSubsequence(a, b[k..])
    ensures IsSubsequence(a, b)
    decreases k
  {
    if k > 0 {
      if a == [] {
      } else {
        assert b[1..][k - 1..] == b[k..];
        SubsequenceDropFront(a, b[1..], k - 1);
        assert b != [];
        if a[0] == b[0] {
          SubsequenceTail(a, b[1..]);
        }
      }
    }
  }

  /** Dropping the first byte of a subsequence keeps it a subsequence. */
  lemma {:induction false} SubsequenceTail(a: Bytes, b: Bytes)
    requires a != []
    requires IsSubsequence(a, b)
    ensures IsSubsequence(a[1..], b)
    decreases |b|
  {
    assert b != [];
    if a[0] == b[0] {
      assert IsSubsequence(a[1..], b[1..]);
      if a[1..] != [] {
        if a[1..][0] != b[0] {
        } else {
          SubsequenceTail(a[1..], b[1..]);
        }
      }
    } else {
      SubsequenceTail(a, b[1..]);
      if a[1..] != [] && a[1..][0] == b[0] {
        SubsequenceTail(a[1..], b[1..]);
      }
    }
  }

  lemma {:induction false} SubsequenceTrans(a: Bytes, b: Bytes, c: Bytes)
    requires IsSubsequence(a, b) && IsSubsequence(b, c)
    ensures IsSubsequence(a, c)
    decreases |c|
  {
    if a == [] {
    } else {
      assert b != [] && c != [];
      if b[0] == c[0] {
        if a[0] == b[0] {
          SubsequenceTrans(a[1..], b[1..], c[1..]);
        } else {
          SubsequenceTrans(a, b[1..], c[1..]);
          SubsequenceDropFront(a, c, 1);
        }
      } else {
        SubsequenceTrans(a, b, c[1..]);
        SubsequenceDropFront(a, c, 1);
      }
    }
  }

  lemma {:induction false} SubsequenceCons(x: byte, a: Bytes, b: Bytes)
    requires IsSubsequence(a, b)
    ensures IsSubsequence([x] + a, [x] + b)
  {
    assert ([x] + a)[1..] == a;
    assert ([x] + b)[1..] == b;
  }

  lemma {:induction false} SubsequenceAppend(a: Bytes, b: Bytes, c: Bytes, d: Bytes)
    requires IsSubsequence(a, b) && IsSubsequence(c, d)
    ensures IsSubsequence(a + c, b + d)
    decreases |b|
  {
    if b == [] {
      assert a == [];
      assert a + c == c && b + d == d;
    } else if a != [] && a[0] == b[0] {
      SubsequenceAppend(a[1..], b[1..], c, d);
      assert (a + c)[1..] == a[1..] + c;
      assert (b + d)[1..] == b[1..] + d;
    } else {
      SubsequenceAppend(a, b[1..], c, d);
      assert (b + d)[1..] == b[1..] + d;
      if a == [] && c != [] && c[0] == b[0] {
        assert a + c == c;
        SubsequenceTail(c, b[1..] + d);
        SubsequenceCons(b[0], c[1..], b[1..] + d);
        assert [b[0]] + c[1..] == c;
        assert [b[0]] + (b[1..] + d) == b + d;
      }
    }
  }

  /** A slice is a subsequence of what it was cut from. */
  /** `SubsequenceAppend` for texts given as concatenations. */
  lemma SubsequenceOfParts(a: Bytes, b: Bytes, a1: Bytes, b1: Bytes, a2: Bytes, b2: Bytes)
    requires IsSubsequence(a1, b1) && IsSubsequence(a2, b2)
    requires a == a1 + a2 && b == b1 + b2
    ensures IsSubsequence(a, b)
  {
    SubsequenceAppend(a1, b1, a2, b2);
  }

  lemma {:induction false} SliceIsSubsequence(s: Bytes, i: nat, j: nat)
    requires i <= j <= |s|
    ensures IsSubsequence(s[i..j], s)
  {
    SubsequenceRefl(s[i..j]);
    assert IsSubsequence([], s[j..]);
    SubsequenceAppend(s[i..j], s[i..j], [], s[j..]);
    assert s[i..j] + [] == s[i..j];
    assert s[i..j] + s[j..] == s[i..];
    SubsequenceDropFront(s[i..j], s, i);
  }

  lemma {:induction false} SubsequenceMembers(a: Bytes, b: Bytes, x: byte)
    requires IsSubsequence(a, b)
    requires x in a
    ensures x in b
    decreases |b|
  {
    assert b != [];
    if a[0] == b[0] {
      if x != a[0] {
        assert x in a[1..];
        SubsequenceMembers(a[1..], b[1..], x);
      }
    } else {
      SubsequenceMembers(a, b[1..], x);
    }
  }

  // ---------------------------------------------------------------------
  // strings.TrimSpace, over ASCII white space.

  /** The ASCII bytes Go's `unicode.IsSpace` accepts: \t \n \v \f \r and space. */
  predicate IsSpace(b: byte) {
    b == 0x09 || b == 0x0A || b == 0x0B || b == 0x0C || b == 0x0D || b == 0x20
  }

  predicate AllSpace(s: Bytes) {
    forall i | 0 <= i < |s| :: IsSpace(s[i])
  }

  /** The number of white-space bytes at the start of `s`. */
  function LeadingSpace(s: Bytes): (n: nat)
    ensures n <= |s|
    ensures forall k | 0 <= k < n :: IsSpace(s[k])
    ensures n < |s| ==> !IsSpace(s[n])
  {
    if s == [] || !IsSpace(s[0]) then 0 else 1 + LeadingSpace(s[1..])
  }

  /** The number of white-space bytes at the end of `s`. */
  function TrailingSpace(s: Bytes): (n: nat)
    ensures n <= |s|
    ensures forall k | |s| - n <= k < |s| :: IsSpace(s[k])
    ensures n < |s| ==> !IsSpace(s[|s| - n - 1])
  {
    if s == [] || !IsSpace(s[|s| - 1]) then 0 else 1 + TrailingSpace(s[..|s| - 1])
  }

  /** strings.TrimSpace: the slice of `s` between its leading and its
      trailing white space. */
  function TrimSpace(s: Bytes): (r: Bytes)
    ensures r == [] || (!IsSpace(r[0]) && !IsSpace(r[|r| - 1]))
  {
    var i := LeadingSpace(s);
    if i == |s| then [] else s[i..|s| - TrailingSpace(s)]
  }

  /** What `TrimSpace` removes is white space and only white space: the
      result is a slice of `s`, everything before and after it is white
      space, and the result has no white space at either end. */
  lemma TrimSpaceSlice(s: Bytes)
    ensures var i, r := LeadingSpace(s), TrimSpace(s);
      i + |r| <= |s| && r == s[i..i + |r|]
      && (forall k | 0 <= k < i :: IsSpace(s[k]))
      && (forall k | i + |r| <= k < |s| :: IsSpace(s[k]))
  {
  }

  /** Trimming to nothing happens exactly when the text is all white space. */
  lemma TrimSpaceEmpty(s: Bytes)
    ensures TrimSpace(s) == [] <==> AllSpace(s)
  {
  }

  lemma TrimSpaceIsSubsequence(s: Bytes)
    ensures IsSubsequence(TrimSpace(s), s)
  {
    var i := LeadingSpace(s);
    if i < |s| {
      SliceIsSubsequence(s, i, |s| - TrailingSpace(s));
    }
  }

  /** A text with no white space at either end is left as it is. */
  lemma TrimSpaceIdentity(s: Bytes)
    requires s == [] || (!IsSpace(s[0]) && !IsSpace(s[|s| - 1]))
    ensures TrimSpace(s) == s
  {
  }

  // ---------------------------------------------------------------------
  // strings.ToLower, over ASCII.

  function LowerByte(b: byte): (r: byte)
    ensures 0x41 <= b <= 0x5A ==> r as int == b as int + 0x20
    ensures !(0x41 <= b <= 0x5A) ==> r == b
  {
    if 0x41 <= b <= 0x5A then b + 0x20 else b
  }

  /** strings.ToLower over ASCII: same length, no upper-case letter left,
      and every other byte unchanged. */
  function ToLower(s: Bytes): (r: Bytes)
    ensures |r| == |s|
    ensures forall i | 0 <= i < |r| :: !(0x41 <= r[i] <= 0x5A)
    ensures forall i | 0 <= i < |s| :: !(0x41 <= s[i] <= 0x5A) ==> r[i] == s[i]
    ensures forall i | 0 <= i < |s| :: 0x41 <= s[i] <= 0x5A ==> r[i] as int == s[i] as int + 0x20
  {
    seq(|s|, i requires 0 <= i < |s| => LowerByte(s[i]))
  }

  // ---------------------------------------------------------------------
  // strings.ReplaceAll.

  /** `pat` occurs in `s` starting at index `i`. */
  predicate OccursAt(s: Bytes, pat: Bytes, i: int) {
    0 <= i && i + |pat| <= |s| && s[i..i + |pat|] == pat
  }

  predicate Occurs(s: Bytes, pat: Bytes) {
    exists i | 0 <= i <= |s| - |pat| :: OccursAt(s, pat, i)
  }

  /** strings.ReplaceAll(s, pat, rep) for a non-empty `pat`: scanning from
      the left, every non-overlapping occurrence of `pat` is replaced by
      `rep`, and scanning resumes after the replaced occurrence. */
  function ReplaceAll(s: Bytes, pat: Bytes, rep: Bytes): Bytes
    requires |pat| > 0
    decreases |s|
  {
    if |s| < |pat| then s
    else if s[..|pat|] == pat then rep + ReplaceAll(s[|pat|..], pat, rep)
    else [s[0]] + ReplaceAll(s[1..], pat, rep)
  }

  /** A specification helper, not a function the program calls: for a
      non-empty `pat`, the number of occurrences that the scan of
      `ReplaceAll` replaces, as strings.Count would count them. */
  function Count(s: Bytes, pat: Bytes): nat
    requires |pat| > 0
    decreases |s|
  {
    if |s| < |pat| then 0
    else if s[..|pat|] == pat then 1 + Count(s[|pat|..], pat)
    else Count(s[1..], pat)
  }

  /** Text without any occurrence of the pattern is left unchanged. */
  lemma {:induction false} ReplaceAllIdentity(s: Bytes, pat: Bytes, rep: Bytes)
    requires |pat| > 0
    requires !Occurs(s, pat)
    ensures ReplaceAll(s, pat, rep) == s
    ensures Count(s, pat) == 0
    decreases |s|
  {
    if |s| >= |pat| {
      assert !OccursAt(s, pat, 0);
      assert !Occurs(s[1..], pat) by {
        forall i | OccursAt(s[1..], pat, i) ensures false {
          assert s[1..][i..i + |pat|] == s[i + 1..i + 1 + |pat|];
          assert OccursAt(s, pat, i + 1);
        }
      }
      ReplaceAllIdentity(s[1..], pat, rep);
      assert [s[0]] + s[1..] == s;
    }
  }

  /** A pattern with a byte that does not occur in the text does not occur
      in it. */
  lemma NotOccursWithoutByte(s: Bytes, pat: Bytes, k: nat)
    requires k < |pat|
    requires pat[k] !in s
    ensures !Occurs(s, pat)
  {
    forall i | 0 <= i <= |s| - |pat| ensures !OccursAt(s, pat, i) {
      assert s[i + k] in s;
      assert s[i..i + |pat|][k] == s[i + k];
    }
  }

  /** A pattern found at the front is replaced and the scan goes on after it. */
  lemma ReplaceAllFront(pat: Bytes, rep: Bytes, rest: Bytes)
    requires |pat| > 0
    ensures ReplaceAll(pat + rest, pat, rep) == rep + ReplaceAll(rest, pat, rep)
    ensures Count(pat + rest, pat) == 1 + Count(rest, pat)
  {
    assert (pat + rest)[..|pat|] == pat;
    assert (pat + rest)[|pat|..] == rest;
  }

  /** An occurrence at the front of `a + b` lies inside `a` when the first
      byte of `b` does not occur in the pattern after its first byte. */
  lemma FrontMatchInside(a: Bytes, b: Bytes, pat: Bytes)
    requires |pat| > 0 && a != []
    requires b != [] && b[0] !in pat[1..]
    requires |a + b| >= |pat| && (a + b)[..|pat|] == pat
    ensures |pat| <= |a| && a[..|pat|] == pat
  {
    forall k | 1 <= k < |pat| ensures pat[k] != b[0] {
      assert pat[k] == pat[1..][k - 1];
    }
    assert (a + b)[|a|] == b[0];
    assert a[..|pat|] == (a + b)[..|pat|];
  }

  /** Splitting the text where no occurrence can straddle the split: the
      first byte of the second part does not occur in the pattern after its
      first byte, so no occurrence starting in `a` can reach into `b`. */
  lemma {:induction false} ReplaceAllSplit(a: Bytes, b: Bytes, pat: Bytes, rep: Bytes)
    requires |pat| > 0
    requires b != [] && b[0] !in pat[1..]
    ensures ReplaceAll(a + b, pat, rep) == ReplaceAll(a, pat, rep) + ReplaceAll(b, pat, rep)
    decreases |a|
  {
    var s := a + b;
    if a == [] {
      assert s == b;
    } else if |s| < |pat| {
      assert ReplaceAll(a, pat, rep) == a && ReplaceAll(b, pat, rep) == b;
    } else if s[..|pat|] == pat {
      FrontMatchInside(a, b, pat);
      assert s[|pat|..] == a[|pat|..] + b;
      ReplaceAllSplit(a[|pat|..], b, pat, rep);
    } else {
      assert s[1..] == a[1..] + b;
      ReplaceAllSplit(a[1..], b, pat, rep);
      if |a| >= |pat| {
        assert a[..|pat|] == s[..|pat|];
      } else {
        assert ReplaceAll(a, pat, rep) == a == [a[0]] + a[1..] == [a[0]] + ReplaceAll(a[1..], pat, rep);
      }
    }
  }

  /** The same split, for `Count`. */
  lemma {:induction false} CountSplit(a: Bytes, b: Bytes, pat: Bytes)
    requires |pat| > 0
    requires b != [] && b[0] !in pat[1..]
    ensures Count(a + b, pat) == Count(a, pat) + Count(b, pat)
    decreases |a|
  {
    var s := a + b;
    if a == [] {
      assert s == b;
    } else if |s| < |pat| {
    } else if s[..|pat|] == pat {
      FrontMatchInside(a, b, pat);
      assert s[|pat|..] == a[|pat|..] + b;
      CountSplit(a[|pat|..], b, pat);
    } else {
      assert s[1..] == a[1..] + b;
      CountSplit(a[1..], b, pat);
      if |a| >= |pat| {
        assert a[..|pat|] == s[..|pat|];
      }
    }
  }

  /** A prefix free of the pattern's first byte is copied unchanged. */
  lemma ReplaceAllSkip(a: Bytes, b: Bytes, pat: Bytes, rep: Bytes)
    requires |pat| > 0
    requires pat[0] !in a
    ensures ReplaceAll(a + b, pat, rep) == a + ReplaceAll(b, pat, rep)
    ensures Count(a + b, pat) == Count(b, pat)
  {
    NotOccursWithoutByte(a, pat, 0);
    ReplaceAllIdentity(a, pat, rep);
    SkipSplit(a, b, pat, rep);
    SkipSplitCount(a, b, pat);
  }

  lemma {:induction false} SkipSplit(a: Bytes, b: Bytes, pat: Bytes, rep: Bytes)
    requires |pat| > 0
    requires pat[0] !in a
    ensures ReplaceAll(a + b, pat, rep) == a + ReplaceAll(b, pat, rep)
    decreases |a|
  {
    if a == [] {
      assert a + b == b;
    } else {
      var s := a + b;
      assert s[0] == a[0] != pat[0];
      assert s[1..] == a[1..] + b;
      assert pat[0] !in a[1..];
      if |s| >= |pat| {
        assert s[..|pat|][0] == s[0];
        SkipSplit(a[1..], b, pat, rep);
        assert ReplaceAll(s, pat, rep) == [a[0]] + ReplaceAll(a[1..] + b, pat, rep);
        assert [a[0]] + (a[1..] + ReplaceAll(b, pat, rep)) == a + ReplaceAll(b, pat, rep);
      } else {
        assert |b| < |pat|;
        assert ReplaceAll(b, pat, rep) == b;
      }
    }
  }

  lemma {:induction false} SkipSplitCount(a: Bytes, b: Bytes, pat: Bytes)
    requires |pat| > 0
    requires pat[0] !in a
    ensures Count(a + b, pat) == Count(b, pat)
    decreases |a|
  {
    if a == [] {
      assert a + b == b;
    } else {
      var s := a + b;
      assert s[0] == a[0] != pat[0];
      assert s[1..] == a[1..] + b;
      assert pat[0] !in a[1..];
      if |s| >= |pat| {
        assert s[..|pat|][0] == s[0];
        SkipSplitCount(a[1..], b, pat);
      } else {
        assert |b| < |pat|;
      }
    }
  }

  /** An occurrence in a suffix is an occurrence in the whole text. */
  lemma OccursInSuffix(s: Bytes, k: nat, q: Bytes)
    requires k <= |s|
    ensures Occurs(s[k..], q) ==> Occurs(s, q)
  {
    if Occurs(s[k..], q) {
      var i :| 0 <= i <= |s[k..]| - |q| && OccursAt(s[k..], q, i);
      assert s[k..][i..i + |q|] == s[i + k..i + k + |q|];
      assert OccursAt(s, q, i + k);
    }
  }

  /** An occurrence in `a + b` lies in `b` when `a` lacks the first byte
      of the pattern. */
  lemma OccursPastFront(a: Bytes, b: Bytes, q: Bytes)
    requires q != [] && q[0] !in a
    ensures Occurs(a + b, q) ==> Occurs(b, q)
  {
    var s := a + b;
    if Occurs(s, q) {
      var i :| 0 <= i <= |s| - |q| && OccursAt(s, q, i);
      assert s[i..i + |q|][0] == s[i];
      assert i >= |a|;
      assert s[i..i + |q|] == b[i - |a|..i - |a| + |q|];
      assert OccursAt(b, q, i - |a|);
    }
  }

  /** An occurrence in `a + b` lies in `a` or in `b` when `b` starts with a
      byte the pattern holds only at its front. */
  lemma OccursNotAcross(a: Bytes, b: Bytes, q: Bytes)
    requires q != [] && b != [] && b[0] !in q[1..]
    ensures Occurs(a + b, q) ==> Occurs(a, q) || Occurs(b, q)
  {
    var s := a + b;
    if Occurs(s, q) {
      var i :| 0 <= i <= |s| - |q| && OccursAt(s, q, i);
      if i + |q| <= |a| {
        assert s[i..i + |q|] == a[i..i + |q|];
        assert OccursAt(a, q, i);
      } else {
        forall k | 1 <= k < |q| ensures q[k] != b[0] {
          assert q[k] == q[1..][k - 1];
        }
        forall j | i <= j < i + |q| ensures s[j] == q[j - i] {
          assert s[i..i + |q|][j - i] == s[j];
        }
        assert s[|a|] == b[0];
        assert i >= |a|;
        assert s[i..i + |q|] == b[i - |a|..i - |a| + |q|];
        assert OccursAt(b, q, i - |a|);
      }
    }
  }

  /** Every byte at the front of ReplaceAll's result was copied from the
      text, as long as the front does not reach the first byte of `rep`. */
  lemma {:induction false} ReplacedPrefix(t: Bytes, pat: Bytes, rep: Bytes, q: Bytes)
    requires |pat| > 0 && rep != [] && rep[0] !in q
    ensures |q| <= |ReplaceAll(t, pat, rep)| && ReplaceAll(t, pat, rep)[..|q|] == q ==>
      |q| <= |t| && t[..|q|] == q
    decreases |t|
  {
    var r := ReplaceAll(t, pat, rep);
    if q != [] && |t| >= |pat| && |q| <= |r| {
      if t[..|pat|] == pat {
        assert r[0] == rep[0] != q[0];
        assert r[..|q|][0] == r[0];
      } else {
        var r1 := ReplaceAll(t[1..], pat, rep);
        assert r == [t[0]] + r1;
        assert rep[0] !in q[1..];
        ReplacedPrefix(t[1..], pat, rep, q[1..]);
        if r[..|q|] == q {
          assert r1[..|q| - 1] == r[..|q|][1..];
          assert t[..|q|] == [t[0]] + t[1..][..|q| - 1];
        }
      }
    }
  }

  /** An occurrence after a first byte starts at that byte or lies in the
      rest. */
  lemma OccursAfterFirst(c: byte, y: Bytes, q: Bytes)
    ensures Occurs([c] + y, q) ==> OccursAt([c] + y, q, 0) || Occurs(y, q)
  {
    var s := [c] + y;
    if Occurs(s, q) {
      var i :| 0 <= i <= |s| - |q| && OccursAt(s, q, i);
      if i > 0 {
        assert s[i..i + |q|] == y[i - 1..i - 1 + |q|];
        assert OccursAt(y, q, i - 1);
      }
    }
  }

  /** When the scan copies the first byte, an occurrence of `q` at the
      front of the result was already at the front of the text. */
  lemma FrontOccurrenceCopied(s: Bytes, pat: Bytes, rep: Bytes, q: Bytes)
    requires |pat| > 0 && |s| >= |pat| && s[..|pat|] != pat
    requires rep != [] && q != [] && rep[0] !in q[1..]
    ensures OccursAt(ReplaceAll(s, pat, rep), q, 0) ==> OccursAt(s, q, 0)
  {
    var r := ReplaceAll(s, pat, rep);
    var r1 := ReplaceAll(s[1..], pat, rep);
    assert r == [s[0]] + r1;
    ReplacedPrefix(s[1..], pat, rep, q[1..]);
    if OccursAt(r, q, 0) {
      assert r1[..|q| - 1] == r[..|q|][1..];
      assert s[..|q|] == [s[0]] + s[1..][..|q| - 1];
    }
  }

  /** ReplaceAll makes no occurrence of `q` when `q` starts with a byte
      that `rep` lacks and `rep` starts with a byte that `q` holds only at
      its front: there is none afterwards if the text had none, and none of
      the pattern itself whatever the text. */
  lemma {:induction false} ReplaceAllAvoids(s: Bytes, pat: Bytes, rep: Bytes, q: Bytes)
    requires |pat| > 0 && rep != [] && q != []
    requires q[0] !in rep && rep[0] !in q[1..]
    requires q == pat || !Occurs(s, q)
    ensures !Occurs(ReplaceAll(s, pat, rep), q)
    decreases |s|
  {
    if |s| < |pat| {
      assert ReplaceAll(s, pat, rep) == s;
    } else if s[..|pat|] == pat {
      var rest := s[|pat|..];
      OccursInSuffix(s, |pat|, q);
      ReplaceAllAvoids(rest, pat, rep, q);
      OccursPastFront(rep, ReplaceAll(rest, pat, rep), q);
    } else {
      var rest := s[1..];
      OccursInSuffix(s, 1, q);
      ReplaceAllAvoids(rest, pat, rep, q);
      assert ReplaceAll(s, pat, rep) == [s[0]] + ReplaceAll(rest, pat, rep);
      OccursAfterFirst(s[0], ReplaceAll(rest, pat, rep), q);
      FrontOccurrenceCopied(s, pat, rep, q);
    }
  }

  /** Each replacement changes the length by the difference between the
      replacement and the pattern. */
  lemma {:induction false} ReplaceAllLength(s: Bytes, pat: Bytes, rep: Bytes)
    requires |pat| > 0
    ensures |ReplaceAll(s, pat, rep)| == |s| + Count(s, pat) * (|rep| - |pat|)
    decreases |s|
  {
    if |s| >= |pat| {
      if s[..|pat|] == pat {
        ReplaceAllLength(s[|pat|..], pat, rep);
        var c := Count(s[|pat|..], pat);
        assert (1 + c) * (|rep| - |pat|) == (|rep| - |pat|) + c * (|rep| - |pat|);
      } else {
        ReplaceAllLength(s[1..], pat, rep);
      }
    }
  }
}
