/** The two string cleaners of the comment handler: `s.replace(/\s/g, '')`,
    which deletes every whitespace character, and `s.trim()`, which deletes
    whitespace at both ends only. */
module Sanitize {
  import opened Whitespace

  // ---------------------------------------------------------------------
  // replace(/\s/g, '')
  // ---------------------------------------------------------------------

  /** `s` with every whitespace character removed. */
  function StripAll(s: string): (r: string)
    ensures |r| <= |s|
    ensures NoWs(r)
    ensures r == [] <==> AllWs(s)
  {
    if s == [] then []
    else if IsWs(s[0]) then StripAll(s[1..])
    else [s[0]] + StripAll(s[1..])
  }

  /** Removing whitespace works character by character: the result for a
      concatenation is the concatenation of the results. Together with
      `StripAllOne` this determines `StripAll` completely. */
  lemma {:induction false} StripAllConcat(a: string, b: string)
    ensures StripAll(a + b) == StripAll(a) + StripAll(b)
  {
    if a == [] {
      assert a + b == b;
    } else {
      assert (a + b)[0] == a[0];
      assert (a + b)[1..] == a[1..] + b;
      StripAllConcat(a[1..], b);
    }
  }

  /** On one character, `StripAll` drops it exactly when it is whitespace. */
  lemma StripAllOne(c: char)
    ensures IsWs(c) ==> StripAll([c]) == []
    ensures !IsWs(c) ==> StripAll([c]) == [c]
  {
    assert [c][1..] == [];
  }

  /** A string is left unchanged exactly when it holds no whitespace. */
  lemma {:induction false} StripAllFixpoint(s: string)
    ensures StripAll(s) == s <==> NoWs(s)
  {
    if s != [] {
      StripAllFixpoint(s[1..]);
      if !IsWs(s[0]) && NoWs(s) {
        assert NoWs(s[1..]) by {
          forall i | 0 <= i < |s[1..]| ensures !IsWs(s[1..][i]) {
            assert s[1..][i] == s[i + 1];
          }
        }
        assert s == [s[0]] + s[1..];
      }
    }
  }

  /** Cleaning twice is cleaning once. */
  lemma StripAllIdempotent(s: string)
    ensures StripAll(StripAll(s)) == StripAll(s)
  {
    StripAllFixpoint(StripAll(s));
  }

  /** Every non-whitespace character survives as many times as it occurs,
      and no whitespace character survives. */
  lemma {:induction false} StripAllKeepsContent(s: string, c: char)
    ensures !IsWs(c) ==> multiset(StripAll(s))[c] == multiset(s)[c]
    ensures IsWs(c) ==> multiset(StripAll(s))[c] == 0
  {
    if s != [] {
      StripAllKeepsContent(s[1..], c);
      assert s == [s[0]] + s[1..];
      assert multiset(s) == multiset([s[0]]) + multiset(s[1..]);
    }
  }

  // ---------------------------------------------------------------------
  // trim()
  // ---------------------------------------------------------------------

  /** Offset of the first non-whitespace character of `s`, or `|s|` when
      there is none: everything before it is whitespace. */
  function TextStart(s: string): (n: nat)
    ensures n <= |s|
    ensures AllWs(s[..n])
    ensures n < |s| ==> !IsWs(s[n])
  {
    if s == [] || !IsWs(s[0]) then 0 else 1 + TextStart(s[1..])
  }

  /** Offset just past the last non-whitespace character of `s`, or 0 when
      there is none: everything from it on is whitespace. */
  function TextEnd(s: string): (n: nat)
    ensures n <= |s|
    ensures AllWs(s[n..])
    ensures n > 0 ==> !IsWs(s[n - 1])
  {
    if s == [] || !IsWs(s[|s| - 1]) then |s| else TextEnd(s[..|s| - 1])
  }

  /** `t` is `s` with whitespace removed from both ends and nowhere else:
      a contiguous piece of `s` preceded and followed only by whitespace,
      and either empty or with non-whitespace ends. */
  ghost predicate IsTrimOf(s: string, t: string) {
    && (exists i :: IsTrimAt(s, t, i))
    && (t == [] || TightEnds(t))
  }

  /** `t` sits in `s` at offset `i` with only whitespace around it. */
  ghost predicate IsTrimAt(s: string, t: string, i: int) {
    && 0 <= i <= |s| - |t|
    && t == s[i..i + |t|]
    && AllWs(s[..i])
    && AllWs(s[i + |t|..])
  }

  /** `s` without its leading and trailing whitespace. */
  function Trim(s: string): (r: string)
    ensures IsTrimOf(s, r)
    ensures r == [] <==> AllWs(s)
  {
    TrimMeetsContract(s);
    TrimSlice(s)
  }

  /** The text between the first and the last non-whitespace character. */
  function TrimSlice(s: string): string {
    var i, j := TextStart(s), TextEnd(s);
    if i < j then s[i..j] else []
  }

  /** `TrimSlice` meets the contract of `Trim`. */
  lemma TrimMeetsContract(s: string)
    ensures IsTrimOf(s, TrimSlice(s))
    ensures TrimSlice(s) == [] <==> AllWs(s)
  {
    var i, j := TextStart(s), TextEnd(s);
    var r := TrimSlice(s);
    if i < j {
      assert IsTrimAt(s, r, i);
      assert r[0] == s[i] && r[|r| - 1] == s[j - 1];
    } else {
      if i < |s| {
        assert false;
      }
      assert s[..|s|] == s;
      assert IsTrimAt(s, r, |s|);
    }
  }

  /** Two non-empty texts with tight ends that both sit in `s` between
      whitespace only are the same piece of `s`: each starts at the first
      non-whitespace character of `s` and ends after the last. */
  lemma TrimPieceUnique(s: string, t: string, u: string, i: int, j: int)
    requires TightEnds(t) && TightEnds(u)
    requires IsTrimAt(s, t, i) && IsTrimAt(s, u, j)
    ensures t == u
  {
    if i < j {
      assert false;
    } else if j < i {
      assert false;
    }
    var e, f := i + |t|, j + |u|;
    if e < f {
      assert false;
    } else if f < e {
      assert false;
    }
  }

  /** An empty text with only whitespace around it leaves nothing but
      whitespace in `s`. */
  lemma EmptyPieceAllWs(s: string, i: int)
    requires IsTrimAt(s, [], i)
    ensures AllWs(s)
  {
    forall k | 0 <= k < |s| ensures IsWs(s[k]) {
      if k < i { assert s[k] == s[..i][k]; } else { assert s[k] == s[i..][k - i]; }
    }
  }

  /** `Trim` is the only function satisfying its contract: any trimming of
      `s` in the sense of `IsTrimOf` is `Trim(s)`. */
  lemma TrimUnique(s: string, t: string)
    requires IsTrimOf(s, t)
    ensures t == Trim(s)
  {
    var r := Trim(s);
    var i :| IsTrimAt(s, t, i);
    var j :| IsTrimAt(s, r, j);
    if t == [] {
      EmptyPieceAllWs(s, i);
    } else if r == [] {
      assert false;
    } else {
      TrimPieceUnique(s, t, r, i, j);
    }
  }

  /** Trimming twice is trimming once. */
  lemma TrimIdempotent(s: string)
    ensures Trim(Trim(s)) == Trim(s)
  {
    var r := Trim(s);
    assert IsTrimAt(r, r, 0) by {
      assert r[..0] == [] && r[|r|..] == [] && r[0..|r|] == r;
    }
    TrimUnique(r, r);
  }

  /** Trimming removes whitespace only: it leaves the non-whitespace text,
      and the whitespace between words, untouched. */
  lemma TrimKeepsText(s: string)
    ensures StripAll(Trim(s)) == StripAll(s)
  {
    var r := Trim(s);
    var i :| IsTrimAt(s, r, i);
    SplitAt(s, i, i + |r|);
    StripAllAround(s[..i], r, s[i + |r|..]);
  }

  /** Whitespace around a text contributes nothing once whitespace is
      stripped. */
  lemma StripAllAround(pre: string, mid: string, post: string)
    requires AllWs(pre) && AllWs(post)
    ensures StripAll(pre + mid + post) == StripAll(mid)
  {
    StripAllConcat(pre + mid, post);
    StripAllConcat(pre, mid);
    var x, y := StripAll(pre), StripAll(post);
    assert x + StripAll(mid) + y == StripAll(mid);
  }

  /** Cutting `s` at two offsets and gluing the pieces back gives `s`. */
  lemma SplitAt(s: string, i: int, e: int)
    requires 0 <= i <= e <= |s|
    ensures s == s[..i] + s[i..e] + s[e..]
  {
  }
}
