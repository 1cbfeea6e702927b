/** The commit-message sanitiser and the guard in front of `git commit`
    (internal/git/git-commit.go). */
module GitCommit {
  import opened Text

  /** The shell metacharacters the sanitiser deletes, in the order it
      deletes them: ; & | ` $ ( ) < > and backslash. */
  const DangerousChars: Bytes := [0x3B, 0x26, 0x7C, 0x60, 0x24, 0x28, 0x29, 0x3C, 0x3E, 0x5C]

  /** Those are the bytes of the source's list, in its order. */
  lemma DangerousCharsAreListed()
    ensures DangerousChars == AsciiBytes(";&|`$()<>\\")
  {
  }

  /** Every byte the deletion steps remove: NUL, then the ten above. */
  const Hazards: Bytes := [NUL] + DangerousChars

  const MaxCommitLength: nat := 2000

  predicate IsHazard(b: byte) {
    b in Hazards
  }

  // ---------------------------------------------------------------------
  // Step 1 and 2: deleting single bytes.

  /** The bytes of `s` that are not in `cs`, in their original order. */
  function StripBytes(s: Bytes, cs: Bytes): (r: Bytes)
    ensures |r| <= |s|
    ensures forall i | 0 <= i < |r| :: r[i] !in cs
  {
    if s == [] then []
    else if s[0] in cs then StripBytes(s[1..], cs)
    else [s[0]] + StripBytes(s[1..], cs)
  }

  /** strings.ReplaceAll(s, c, "") for a one-byte `c` deletes exactly the
      occurrences of that byte. */
  lemma {:induction false} ReplaceAllDeletesByte(s: Bytes, c: byte)
    ensures ReplaceAll(s, [c], []) == StripBytes(s, [c])
  {
    if s != [] {
      ReplaceAllDeletesByte(s[1..], c);
      assert s[..1] == [s[0]];
    }
  }

  /** Deleting one more byte value after a set of them. */
  lemma {:induction false} StripBytesThen(s: Bytes, cs: Bytes, c: byte)
    ensures StripBytes(StripBytes(s, cs), [c]) == StripBytes(s, cs + [c])
  {
    if s != [] {
      StripBytesThen(s[1..], cs, c);
      if s[0] !in cs {
        assert StripBytes(s, cs) == [s[0]] + StripBytes(s[1..], cs);
        assert ([s[0]] + StripBytes(s[1..], cs))[1..] == StripBytes(s[1..], cs);
      }
    }
  }

  /** Deletion keeps every other byte: for a byte not in `cs`, the number of
      its occurrences is unchanged (so quotes, which are not in the list,
      survive). */
  lemma {:induction false} StripBytesKeeps(s: Bytes, cs: Bytes, b: byte)
    requires b !in cs
    ensures multiset(StripBytes(s, cs))[b] == multiset(s)[b]
  {
    if s != [] {
      StripBytesKeeps(s[1..], cs, b);
      assert s == [s[0]] + s[1..];
      assert multiset(s) == multiset([s[0]]) + multiset(s[1..]);
    }
  }

  lemma {:induction false} StripBytesIsSubsequence(s: Bytes, cs: Bytes)
    ensures IsSubsequence(StripBytes(s, cs), s)
  {
    if s != [] {
      StripBytesIsSubsequence(s[1..], cs);
      if s[0] in cs {
        SubsequenceDropFront(StripBytes(s, cs), s, 1);
      } else {
        SubsequenceCons(s[0], StripBytes(s[1..], cs), s[1..]);
        assert [s[0]] + s[1..] == s;
      }
    }
  }

  /** Text without any of the bytes is left unchanged. */
  lemma {:induction false} StripBytesIdentity(s: Bytes, cs: Bytes)
    requires forall i | 0 <= i < |s| :: s[i] !in cs
    ensures StripBytes(s, cs) == s
  {
    if s != [] {
      assert s[0] !in cs;
      StripBytesIdentity(s[1..], cs);
      assert [s[0]] + s[1..] == s;
    }
  }

  // ---------------------------------------------------------------------
  // Step 3: the regular expression \n{6,} replaced by "\n\n".

  /** `n` newline bytes. */
  function Newlines(n: nat): (r: Bytes)
    ensures |r| == n && forall i | 0 <= i < n :: r[i] == NL
  {
    seq(n, _ => NL)
  }

  /** The length of the run of newline bytes at the start of `s`. */
  function LeadingNewlines(s: Bytes): (n: nat)
    ensures n <= |s|
    ensures forall k | 0 <= k < n :: s[k] == NL
    ensures n < |s| ==> s[n] != NL
  {
    if s == [] || s[0] != NL then 0 else 1 + LeadingNewlines(s[1..])
  }

  /** `s` holds `n` consecutive newline bytes starting at index `i`. */
  predicate NewlineRunAt(s: Bytes, n: nat, i: int) {
    0 <= i && i + n <= |s| && forall k | i <= k < i + n :: s[k] == NL
  }

  /** `s` holds `n` consecutive newline bytes somewhere. */
  predicate HasNewlineRun(s: Bytes, n: nat) {
    exists i | 0 <= i <= |s| - n :: NewlineRunAt(s, n, i)
  }

  /** Go's regexp replacement of `\n{6,}` by two newlines: the match is
      leftmost and greedy, so each maximal run of six or more newline bytes
      becomes exactly two, and shorter runs do not match. */
  function CollapseNewlines(s: Bytes): (r: Bytes)
    ensures |r| <= |s|
    decreases |s|
  {
    if s == [] then []
    else if s[0] != NL then [s[0]] + CollapseNewlines(s[1..])
    else
      var k := LeadingNewlines(s);
      (if k >= 6 then Newlines(2) else s[..k]) + CollapseNewlines(s[k..])
  }

  lemma LeadingNewlinesAppend(a: Bytes, b: Bytes)
    requires forall k | 0 <= k < |a| :: a[k] == NL
    requires b == [] || b[0] != NL
    ensures LeadingNewlines(a + b) == |a|
  {
    assert forall k | 0 <= k < |a| :: (a + b)[k] == NL;
    assert |a| < |a + b| ==> (a + b)[|a|] != NL;
  }

  /** Appending after the leading run ends does not lengthen it. */
  lemma LeadingNewlinesSplit(a: Bytes, b: Bytes)
    requires LeadingNewlines(a) < |a| || b == [] || b[0] != NL
    ensures LeadingNewlines(a + b) == LeadingNewlines(a)
  {
    var k := LeadingNewlines(a);
    assert forall j | 0 <= j < k :: (a + b)[j] == NL;
    assert k < |a| ==> (a + b)[k] == a[k];
    assert k == |a| && b != [] ==> (a + b)[k] == b[0];
  }

  /** A run of six newlines at `i` makes the leading run there at least six. */
  lemma RunGivesLeading(s: Bytes, i: nat, n: nat)
    requires NewlineRunAt(s, n, i)
    ensures LeadingNewlines(s[i..]) >= n
  {
    assert forall k | 0 <= k < n :: s[i..][k] == s[i + k];
  }

  lemma CollapseFront(s: Bytes)
    requires s != [] && s[0] != NL
    ensures CollapseNewlines(s) != [] && CollapseNewlines(s)[0] == s[0]
  {
  }

  /** In the collapsed text no leading run anywhere reaches six. */
  lemma {:induction false} CollapseShortRuns(s: Bytes)
    ensures forall i | 0 <= i < |CollapseNewlines(s)| :: LeadingNewlines(CollapseNewlines(s)[i..]) < 6
    decreases |s|, 1
  {
    var r := CollapseNewlines(s);
    if s == [] {
    } else if s[0] != NL {
      var rest := CollapseNewlines(s[1..]);
      CollapseShortRuns(s[1..]);
      forall i | 0 <= i < |r| ensures LeadingNewlines(r[i..]) < 6 {
        if i == 0 {
          assert r[0] == s[0];
        } else {
          assert r[i..] == rest[i - 1..];
        }
      }
    } else {
      CollapseShortRunsRun(s);
    }
  }

  /** The case of `CollapseShortRuns` where `s` starts with a newline. */
  lemma {:induction false} CollapseShortRunsRun(s: Bytes)
    requires s != [] && s[0] == NL
    ensures forall i | 0 <= i < |CollapseNewlines(s)| :: LeadingNewlines(CollapseNewlines(s)[i..]) < 6
    decreases |s|, 0
  {
    var r := CollapseNewlines(s);
    var k := LeadingNewlines(s);
    var piece := if k >= 6 then Newlines(2) else s[..k];
    var rest := CollapseNewlines(s[k..]);
    assert r == piece + rest;
    assert |piece| < 6;
    assert forall j | 0 <= j < |piece| :: piece[j] == NL;
    CollapseShortRuns(s[k..]);
    if s[k..] != [] {
      CollapseFront(s[k..]);
    }
    ShortRunsJoin(piece, rest);
  }

  /** A short run of newlines followed by text whose runs are all short and
      which does not start with a newline: all runs stay short. */
  lemma ShortRunsJoin(piece: Bytes, rest: Bytes)
    requires |piece| < 6 && forall j | 0 <= j < |piece| :: piece[j] == NL
    requires rest == [] || rest[0] != NL
    requires forall i | 0 <= i < |rest| :: LeadingNewlines(rest[i..]) < 6
    ensures forall i | 0 <= i < |piece + rest| :: LeadingNewlines((piece + rest)[i..]) < 6
  {
    var r := piece + rest;
    forall i | 0 <= i < |r| ensures LeadingNewlines(r[i..]) < 6 {
      if i < |piece| {
        assert r[i..] == piece[i..] + rest;
        assert forall j | 0 <= j < |piece[i..]| :: piece[i..][j] == NL;
        LeadingNewlinesAppend(piece[i..], rest);
      } else {
        assert r[i..] == rest[i - |piece|..];
      }
    }
  }

  /** After collapsing, no six consecutive newline bytes remain. */
  lemma CollapseNoLongRun(s: Bytes)
    ensures !HasNewlineRun(CollapseNewlines(s), 6)
  {
    var r := CollapseNewlines(s);
    CollapseShortRuns(s);
    forall i | NewlineRunAt(r, 6, i) ensures false {
      RunGivesLeading(r, i, 6);
    }
  }

  /** A slice of a text without a run of `n` newlines has none either. */
  lemma NoRunSlice(s: Bytes, n: nat, i: nat, j: nat)
    requires i <= j <= |s|
    requires !HasNewlineRun(s, n)
    ensures !HasNewlineRun(s[i..j], n)
  {
    var t := s[i..j];
    forall p | NewlineRunAt(t, n, p) ensures NewlineRunAt(s, n, i + p) {
      assert forall k | i + p <= k < i + p + n :: s[k] == t[k - i];
    }
  }

  /** Text without a run of six newlines is not changed by collapsing. */
  lemma {:induction false} CollapseIdentity(s: Bytes)
    requires !HasNewlineRun(s, 6)
    ensures CollapseNewlines(s) == s
    decreases |s|
  {
    if s == [] {
    } else if s[0] != NL {
      NoRunSlice(s, 6, 1, |s|);
      assert s[1..|s|] == s[1..];
      CollapseIdentity(s[1..]);
      assert [s[0]] + s[1..] == s;
    } else {
      var k := LeadingNewlines(s);
      assert k < 6 by {
        assert k >= 6 ==> NewlineRunAt(s, 6, 0);
      }
      NoRunSlice(s, 6, k, |s|);
      assert s[k..|s|] == s[k..];
      CollapseIdentity(s[k..]);
      assert s[..k] + s[k..] == s;
    }
  }

  /** Collapsing twice is collapsing once. */
  lemma CollapseIdempotent(s: Bytes)
    ensures CollapseNewlines(CollapseNewlines(s)) == CollapseNewlines(s)
  {
    CollapseNoLongRun(s);
    CollapseIdentity(CollapseNewlines(s));
  }

  /** Collapsing works piece by piece when the split is not inside a run
      of newlines. */
  lemma {:induction false} CollapseSplit(a: Bytes, b: Bytes)
    requires a == [] || b == [] || a[|a| - 1] != NL || b[0] != NL
    ensures CollapseNewlines(a + b) == CollapseNewlines(a) + CollapseNewlines(b)
    decreases |a|, 1
  {
    if a == [] {
      assert a + b == b;
    } else if a[0] != NL {
      var s := a + b;
      assert s[0] == a[0];
      assert s[1..] == a[1..] + b;
      assert a[1..] == [] || a[1..][|a[1..]| - 1] == a[|a| - 1];
      var x, y := CollapseNewlines(a[1..]), CollapseNewlines(b);
      CollapseSplit(a[1..], b);
      assert CollapseNewlines(s) == [a[0]] + (x + y);
      assert CollapseNewlines(a) == [a[0]] + x;
      AppendAssoc([a[0]], x, y);
    } else {
      CollapseSplitRun(a, b);
    }
  }

  /** The case of `CollapseSplit` where `a` starts with a newline. */
  lemma {:induction false} CollapseSplitRun(a: Bytes, b: Bytes)
    requires a != [] && a[0] == NL
    requires b == [] || a[|a| - 1] != NL || b[0] != NL
    ensures CollapseNewlines(a + b) == CollapseNewlines(a) + CollapseNewlines(b)
    decreases |a|, 0
  {
    var s := a + b;
    var k := LeadingNewlines(a);
    assert k == |a| ==> a[|a| - 1] == NL;
    LeadingNewlinesSplit(a, b);
    assert s[..k] == a[..k];
    assert s[k..] == a[k..] + b;
    assert a[k..] == [] || a[k..][|a[k..]| - 1] == a[|a| - 1];
    var piece := if k >= 6 then Newlines(2) else a[..k];
    var x, y := CollapseNewlines(a[k..]), CollapseNewlines(b);
    assert CollapseNewlines(a) == piece + x;
    CollapseSplit(a[k..], b);
    assert CollapseNewlines(s[k..]) == x + y;
    assert CollapseNewlines(s) == piece + (x + y);
    AppendAssoc(piece, x, y);
  }

  /** A run of `k` newlines on its own: six or more become two. */
  lemma CollapseRun(k: nat)
    ensures CollapseNewlines(Newlines(k)) == if k >= 6 then Newlines(2) else Newlines(k)
  {
    if k > 0 {
      LeadingNewlinesAppend(Newlines(k), []);
      assert Newlines(k) + [] == Newlines(k);
      assert Newlines(k)[k..] == [];
      assert Newlines(k)[..k] == Newlines(k);
    }
  }

  /** Each maximal run of newlines is replaced on its own: six or more by
      two, one to five left as they are, and the text around it is
      collapsed independently. */
  lemma CollapseMaximalRun(u: Bytes, k: nat, v: Bytes)
    requires u == [] || u[|u| - 1] != NL
    requires v == [] || v[0] != NL
    ensures CollapseNewlines(u + Newlines(k) + v)
         == CollapseNewlines(u) + (if k >= 6 then Newlines(2) else Newlines(k)) + CollapseNewlines(v)
  {
    var n := Newlines(k);
    var p := if k >= 6 then Newlines(2) else n;
    var cu, cv := CollapseNewlines(u), CollapseNewlines(v);
    CollapseRun(k);
    CollapseSplit(n, v);
    CollapseSplit(u, n + v);
    AppendAssoc(u, n, v);
    AppendAssoc(cu, p, cv);
  }

  /** Collapsing deletes only newline bytes: every other byte keeps its
      number of occurrences. */
  lemma {:induction false} CollapseKeeps(s: Bytes, b: byte)
    requires b != NL
    ensures multiset(CollapseNewlines(s))[b] == multiset(s)[b]
    decreases |s|
  {
    if s == [] {
    } else if s[0] != NL {
      var r := CollapseNewlines(s[1..]);
      CollapseKeeps(s[1..], b);
      assert CollapseNewlines(s) == [s[0]] + r;
      assert multiset([s[0]] + r) == multiset([s[0]]) + multiset(r);
      assert s == [s[0]] + s[1..];
      assert multiset(s) == multiset([s[0]]) + multiset(s[1..]);
    } else {
      var k := LeadingNewlines(s);
      var piece := if k >= 6 then Newlines(2) else s[..k];
      var r := CollapseNewlines(s[k..]);
      CollapseKeeps(s[k..], b);
      assert CollapseNewlines(s) == piece + r;
      assert multiset(piece + r) == multiset(piece) + multiset(r);
      assert s == s[..k] + s[k..];
      assert multiset(s) == multiset(s[..k]) + multiset(s[k..]);
      assert b !in piece && b !in s[..k];
    }
  }

  lemma {:induction false} CollapseIsSubsequence(s: Bytes)
    ensures IsSubsequence(CollapseNewlines(s), s)
    decreases |s|, 1
  {
    if s == [] {
    } else if s[0] != NL {
      CollapseIsSubsequence(s[1..]);
      SubsequenceCons(s[0], CollapseNewlines(s[1..]), s[1..]);
      assert [s[0]] + s[1..] == s;
    } else {
      CollapseRunIsSubsequence(s);
    }
  }

  /** The case of `CollapseIsSubsequence` where `s` starts with a newline. */
  lemma {:induction false} CollapseRunIsSubsequence(s: Bytes)
    requires s != [] && s[0] == NL
    ensures IsSubsequence(CollapseNewlines(s), s)
    decreases |s|, 0
  {
    var k := LeadingNewlines(s);
    var piece := if k >= 6 then Newlines(2) else s[..k];
    var rest := CollapseNewlines(s[k..]);
    CollapseIsSubsequence(s[k..]);
    RunPieceIsSubsequence(s[..k]);
    assert s == s[..k] + s[k..];
    SubsequenceOfParts(CollapseNewlines(s), s, piece, s[..k], rest, s[k..]);
  }

  /** What a run of newlines is replaced by is a subsequence of the run. */
  lemma RunPieceIsSubsequence(run: Bytes)
    requires forall j | 0 <= j < |run| :: run[j] == NL
    ensures IsSubsequence(if |run| >= 6 then Newlines(2) else run, run)
  {
    var k := |run|;
    if k >= 6 {
      assert run[k - 2..k] == [run[k - 2], run[k - 1]] == [NL, NL] == Newlines(2);
      SliceIsSubsequence(run, k - 2, k);
    } else {
      SubsequenceRefl(run);
    }
  }

  // ---------------------------------------------------------------------
  // The whole sanitiser.

  /** The message after deletion, collapsing and trimming, before the cut. */
  function Cleaned(message: Bytes): Bytes {
    TrimSpace(CollapseNewlines(StripBytes(message, Hazards)))
  }

  /** sanitizeCommitMessage as a function of its input. */
  function Sanitized(message: Bytes): (r: Bytes)
    ensures |r| <= MaxCommitLength
  {
    var t := Cleaned(message);
    if |t| > MaxCommitLength then t[..MaxCommitLength] else t
  }

  /** sanitizeCommitMessage, step by step as the source rebinds `message`. */
  method SanitizeCommitMessage(message: Bytes) returns (sanitized: Bytes)
    ensures sanitized == Sanitized(message)
  {
    var msg := ReplaceAll(message, [NUL], []);
    ReplaceAllDeletesByte(message, NUL);
    assert Hazards[..1] == [NUL];
    for i := 0 to |DangerousChars|
      invariant msg == StripBytes(message, Hazards[..i + 1])
    {
      ReplaceAllDeletesByte(msg, DangerousChars[i]);
      StripBytesThen(message, Hazards[..i + 1], DangerousChars[i]);
      assert Hazards[..i + 1] + [DangerousChars[i]] == Hazards[..i + 2];
      msg := ReplaceAll(msg, [DangerousChars[i]], []);
    }
    assert Hazards[..|DangerousChars| + 1] == Hazards;
    msg := CollapseNewlines(msg);
    msg := TrimSpace(msg);
    if |msg| > MaxCommitLength {
      msg := msg[..MaxCommitLength];
    }
    sanitized := msg;
  }

  lemma CleanedIsSubsequence(message: Bytes)
    ensures IsSubsequence(Cleaned(message), message)
  {
    var s1 := StripBytes(message, Hazards);
    var s2 := CollapseNewlines(s1);
    StripBytesIsSubsequence(message, Hazards);
    CollapseIsSubsequence(s1);
    TrimSpaceIsSubsequence(s2);
    SubsequenceTrans(s2, s1, message);
    SubsequenceTrans(Cleaned(message), s2, message);
  }

  /** Every step only deletes: the result is the input with some bytes
      removed, the rest in their original order. */
  lemma SanitizedIsSubsequence(message: Bytes)
    ensures IsSubsequence(Sanitized(message), message)
  {
    var t := Cleaned(message);
    CleanedIsSubsequence(message);
    if |t| > MaxCommitLength {
      SliceIsSubsequence(t, 0, MaxCommitLength);
      SubsequenceTrans(t[..MaxCommitLength], t, message);
    }
  }

  /** No NUL byte and none of the ten metacharacters survive. */
  lemma SanitizedHasNoHazards(message: Bytes)
    ensures forall i | 0 <= i < |Sanitized(message)| :: !IsHazard(Sanitized(message)[i])
  {
    var s1 := StripBytes(message, Hazards);
    var r := Sanitized(message);
    StripBytesIsSubsequence(message, Hazards);
    CollapseIsSubsequence(s1);
    TrimSpaceIsSubsequence(CollapseNewlines(s1));
    SubsequenceTrans(Cleaned(message), CollapseNewlines(s1), s1);
    if |Cleaned(message)| > MaxCommitLength {
      SliceIsSubsequence(Cleaned(message), 0, MaxCommitLength);
    } else {
      SubsequenceRefl(r);
    }
    SubsequenceTrans(r, Cleaned(message), s1);
    forall i | 0 <= i < |r| ensures !IsHazard(r[i]) {
      SubsequenceMembers(r, s1, r[i]);
    }
  }

  /** The result is at most 2000 bytes; a cleaned text of at most 2000
      bytes is returned whole, a longer one is cut to its first 2000. */
  lemma SanitizedLength(message: Bytes)
    ensures |Sanitized(message)| <= MaxCommitLength
    ensures |Cleaned(message)| <= MaxCommitLength ==> Sanitized(message) == Cleaned(message)
    ensures |Cleaned(message)| > MaxCommitLength ==> Sanitized(message) == Cleaned(message)[..MaxCommitLength]
  {
  }

  /** No run of six or more newline bytes survives, even across places
      where deleted metacharacters used to separate shorter runs. */
  lemma SanitizedNoLongRun(message: Bytes)
    ensures !HasNewlineRun(Sanitized(message), 6)
  {
    var s1 := StripBytes(message, Hazards);
    CollapseNoLongRun(s1);
    TrimAndCutKeepNoRun(CollapseNewlines(s1));
  }

  /** Trimming and then cutting to the length limit take slices, which
      cannot create a run of newlines. */
  lemma TrimAndCutKeepNoRun(s: Bytes)
    requires !HasNewlineRun(s, 6)
    ensures !HasNewlineRun(TrimSpace(s), 6)
    ensures |TrimSpace(s)| > MaxCommitLength ==> !HasNewlineRun(TrimSpace(s)[..MaxCommitLength], 6)
  {
    var t := TrimSpace(s);
    var i := LeadingSpace(s);
    TrimSpaceSlice(s);
    NoRunSlice(s, 6, i, i + |t|);
    if |t| > MaxCommitLength {
      NoRunSlice(t, 6, 0, MaxCommitLength);
      assert t[0..MaxCommitLength] == t[..MaxCommitLength];
    }
  }

  /** The result never starts with white space; when no cut happens it does
      not end with white space either. */
  lemma SanitizedEnds(message: Bytes)
    ensures Sanitized(message) == [] || !IsSpace(Sanitized(message)[0])
    ensures |Cleaned(message)| <= MaxCommitLength ==>
      Sanitized(message) == [] || !IsSpace(Sanitized(message)[|Sanitized(message)| - 1])
  {
  }

  /** The cut can expose white space at the end: 1999 letters, a space and
      one more letter sanitise to the 1999 letters and the space. */
  lemma CutExposesTrailingSpace()
    ensures var m := seq(1999, _ => 0x61 as byte) + [SPACE, 0x62];
      Sanitized(m) == m[..2000] && IsSpace(Sanitized(m)[1999])
  {
    var m: Bytes := seq(1999, _ => 0x61 as byte) + [SPACE, 0x62];
    assert forall i | 0 <= i < |m| :: m[i] == 0x61 || m[i] == SPACE || m[i] == 0x62;
    StripBytesIdentity(m, Hazards);
    assert !HasNewlineRun(m, 6) by {
      assert forall i | 0 <= i < |m| :: m[i] != NL;
      assert forall i | NewlineRunAt(m, 6, i) :: m[i] == NL;
    }
    CollapseIdentity(m);
    TrimSpaceIdentity(m);
  }

  /** The sanitised message is empty exactly when every byte of the input
      is a deleted metacharacter, NUL or white space (as for ";;;"). */
  lemma SanitizedEmptyIff(message: Bytes)
    ensures Sanitized(message) == [] <==>
      forall i | 0 <= i < |message| :: IsHazard(message[i]) || IsSpace(message[i])
  {
    var s1 := StripBytes(message, Hazards);
    var s2 := CollapseNewlines(s1);
    if forall i | 0 <= i < |message| :: IsHazard(message[i]) || IsSpace(message[i]) {
      StripBytesIsSubsequence(message, Hazards);
      CollapseIsSubsequence(s1);
      SubsequenceTrans(s2, s1, message);
      forall k | 0 <= k < |s2| ensures IsSpace(s2[k]) {
        SubsequenceMembers(s2, message, s2[k]);
        SubsequenceMembers(s2, s1, s2[k]);
      }
      TrimSpaceEmpty(s2);
    } else {
      var i :| 0 <= i < |message| && !IsHazard(message[i]) && !IsSpace(message[i]);
      var b := message[i];
      StripBytesKeeps(message, Hazards, b);
      CollapseKeeps(s1, b);
      assert b in multiset(s2);
      TrimSpaceEmpty(s2);
      assert !AllSpace(s2) by {
        var k :| 0 <= k < |s2| && s2[k] == b;
      }
    }
  }

  /** Three semicolons sanitise to nothing. */
  lemma SemicolonsSanitiseToNothing()
    ensures Sanitized([0x3B, 0x3B, 0x3B]) == []
  {
    SanitizedEmptyIff([0x3B, 0x3B, 0x3B]);
  }

  /** A message that is already clean passes through unchanged; in
      particular quotes are kept. */
  lemma SanitizedIdentity(message: Bytes)
    requires forall i | 0 <= i < |message| :: !IsHazard(message[i])
    requires !HasNewlineRun(message, 6)
    requires message == [] || (!IsSpace(message[0]) && !IsSpace(message[|message| - 1]))
    requires |message| <= MaxCommitLength
    ensures Sanitized(message) == message
  {
    StripBytesIdentity(message, Hazards);
    CollapseIdentity(message);
    TrimSpaceIdentity(message);
  }

  // ---------------------------------------------------------------------
  // ExecuteCommit.

  datatype CommitError =
    | EmptyAfterSanitization
      /** `git commit` ran and failed; the cause is the execution error. */
    | CommitFailed(cause: Bytes)

  /** What running a process gives back: its combined standard output and
      error, and the execution error if it failed. */
  datatype ExecResult = ExecResult(output: Bytes, failure: Option<Bytes>)

  /** The `git` subprocess, given its argument vector. */
  type GitRunner = seq<Bytes> -> ExecResult

  /** The argument vector of `git commit -m <message>`: the message is one
      argument of its own and is never interpreted by a shell. */
  function CommitArgs(message: Bytes): (args: seq<Bytes>)
    ensures |args| == 4 && args[3] == message
    ensures args[..3] == [AsciiBytes("git"), AsciiBytes("commit"), AsciiBytes("-m")]
  {
    [AsciiBytes("git"), AsciiBytes("commit"), AsciiBytes("-m"), message]
  }

  /** ExecuteCommit. `command` is the argument vector handed to `git`, or
      None when no process is started. */
  method ExecuteCommit(message: Bytes, git: GitRunner)
    returns (output: Bytes, err: Option<CommitError>, command: Option<seq<Bytes>>)
    ensures Sanitized(message) == [] ==>
      output == [] && err == Some(EmptyAfterSanitization) && command == None
    ensures Sanitized(message) != [] ==>
      command == Some(CommitArgs(Sanitized(message))) &&
      output == git(CommitArgs(Sanitized(message))).output &&
      err == match git(CommitArgs(Sanitized(message))).failure
             case None => None
             case Some(e) => Some(CommitFailed(e))
    ensures err == Some(EmptyAfterSanitization) <==>
      forall i | 0 <= i < |message| :: IsHazard(message[i]) || IsSpace(message[i])
  {
    var sanitized := SanitizeCommitMessage(message);
    SanitizedEmptyIff(message);
    if TrimSpace(sanitized) == [] {
      TrimSpaceEmpty(sanitized);
      SanitizedEnds(message);
      return [], Some(EmptyAfterSanitization), None;
    }
    var args := CommitArgs(sanitized);
    var run := git(args);
    command := Some(args);
    output := run.output;
    match run.failure {
      case None => err := None;
      case Some(e) => err := Some(CommitFailed(e));
    }
  }
}
