/** The Python string operations the cache rewriter uses, `in` and
    `str.replace`, on strings as sequences of characters; `str.find` and
    `str.count`, which it does not call, serve to state their properties. */
module Text {

  datatype Option<T> = None | Some(value: T)

  /** `p` occurs in `s` starting at index `i`. */
  predicate OccursAt(s: string, p: string, i: int) {
    0 <= i && i + |p| <= |s| && s[i..i + |p|] == p
  }

  /** Python's `p in s`: some slice of `s` equals `p` (always true of the empty `p`). */
  predicate Contains(s: string, p: string) {
    exists i | 0 <= i <= |s| - |p| :: OccursAt(s, p, i)
  }

  /** Moving one character to the left: an occurrence at `i + 1` in `s` is one at `i` in `s[1..]`. */
  lemma OccursAtTail(s: string, p: string)
    requires s != []
    ensures forall i :: 0 <= i ==> (OccursAt(s, p, i + 1) <==> OccursAt(s[1..], p, i))
  {
    forall i | 0 <= i
      ensures OccursAt(s, p, i + 1) <==> OccursAt(s[1..], p, i)
    {
      if i + 1 + |p| <= |s| {
        assert s[1..][i..i + |p|] == s[i + 1..i + 1 + |p|];
      }
    }
  }

  /** `p` occurs in a non-empty `s` exactly when it is a prefix or occurs in the tail. */
  lemma ContainsTail(s: string, p: string)
    requires s != []
    ensures Contains(s, p) <==> p <= s || Contains(s[1..], p)
  {
    OccursAtTail(s, p);
    if Contains(s, p) && !(p <= s) {
      var i :| 0 <= i <= |s| - |p| && OccursAt(s, p, i);
      assert i != 0;
      assert OccursAt(s[1..], p, i - 1);
    }
    if p <= s {
      assert OccursAt(s, p, 0);
    }
    if Contains(s[1..], p) {
      var i :| 0 <= i <= |s[1..]| - |p| && OccursAt(s[1..], p, i);
      assert OccursAt(s, p, i + 1);
    }
  }

  /** Python's `s.find(p)`: the first index where `p` occurs, or nothing (-1 in Python). */
  function Find(s: string, p: string): (r: Option<nat>)
    ensures r.Some? ==> OccursAt(s, p, r.value)
    ensures r.Some? ==> forall j :: 0 <= j < r.value ==> !OccursAt(s, p, j)
    ensures r.None? <==> !Contains(s, p)
    decreases |s|
  {
    if p <= s then
      assert OccursAt(s, p, 0);
      Some(0)
    else if s == [] then
      None
    else
      ContainsTail(s, p);
      OccursAtTail(s, p);
      match Find(s[1..], p)
      case None => None
      case Some(k) =>
        assert forall j :: 0 < j <= k ==> (OccursAt(s, p, j) <==> OccursAt(s[1..], p, j - 1));
        Some(k + 1)
  }

  /** Python's `s.count(p)`: the number of non-overlapping occurrences of `p`
      found scanning from the left; `len(s) + 1` for the empty `p`. */
  function Count(s: string, p: string): (n: nat)
    decreases |s|
  {
    if p == [] then |s| + 1
    else if s == [] then 0
    else if p <= s then 1 + Count(s[|p|..], p)
    else Count(s[1..], p)
  }

  /** Python's `s.replace(target, replacement)`: scanning from the left, every
      non-overlapping occurrence of a non-empty `target` is replaced; an empty
      `target` puts `replacement` before every character and at the end. */
  function Replace(s: string, target: string, replacement: string): (r: string)
    decreases |s|
  {
    if target == [] then Interleave(s, replacement)
    else if s == [] then []
    else if target <= s then replacement + Replace(s[|target|..], target, replacement)
    else [s[0]] + Replace(s[1..], target, replacement)
  }

  /** `sep` before each character of `s` and once more at the end. */
  function Interleave(s: string, sep: string): (r: string)
    decreases |s|
  {
    if s == [] then sep else sep + [s[0]] + Interleave(s[1..], sep)
  }

  /** A string that does not contain the target is left as it is. */
  lemma {:induction false} ReplaceAbsent(s: string, target: string, replacement: string)
    requires !Contains(s, target)
    ensures Replace(s, target, replacement) == s
    decreases |s|
  {
    if target == [] {
      assert OccursAt(s, target, 0);
      assert false;
    } else if s != [] {
      ContainsTail(s, target);
      ReplaceAbsent(s[1..], target, replacement);
    }
  }

  /** Interleaving the empty separator changes nothing. */
  lemma {:induction false} InterleaveEmpty(s: string)
    ensures Interleave(s, []) == s
    decreases |s|
  {
    if s != [] {
      InterleaveEmpty(s[1..]);
    }
  }

  /** Replacing a string by itself is the identity. */
  lemma {:induction false} ReplaceSame(s: string, target: string)
    ensures Replace(s, target, target) == s
    decreases |s|
  {
    if target == [] {
      InterleaveEmpty(s);
    } else if s != [] {
      if target <= s {
        ReplaceSame(s[|target|..], target);
        assert s == target + s[|target|..];
      } else {
        ReplaceSame(s[1..], target);
        assert s == [s[0]] + s[1..];
      }
    }
  }

  /** Length of an interleaving: one separator per character plus one. */
  lemma {:induction false} InterleaveLength(s: string, sep: string)
    ensures |Interleave(s, sep)| == |s| + (|s| + 1) * |sep|
    decreases |s|
  {
    if s != [] {
      InterleaveLength(s[1..], sep);
      calc {
        |Interleave(s, sep)|;
        |sep| + 1 + |Interleave(s[1..], sep)|;
        |sep| + 1 + (|s| - 1) + |s| * |sep|;
        |s| + (|s| + 1) * |sep|;
      }
    }
  }

  /** Every counted occurrence trades `|target|` characters for `|replacement|`. */
  lemma {:induction false} ReplaceLength(s: string, target: string, replacement: string)
    ensures |Replace(s, target, replacement)| == |s| + Count(s, target) * (|replacement| - |target|)
    decreases |s|
  {
    var d := |replacement| - |target|;
    if target == [] {
      InterleaveLength(s, replacement);
    } else if s != [] {
      if target <= s {
        var rest := s[|target|..];
        ReplaceLength(rest, target, replacement);
        calc {
          |Replace(s, target, replacement)|;
          |replacement| + |Replace(rest, target, replacement)|;
          |replacement| + |rest| + Count(rest, target) * d;
          |s| + d + Count(rest, target) * d;
          { assert (1 + Count(rest, target)) * d == d + Count(rest, target) * d; }
          |s| + Count(s, target) * d;
        }
      } else {
        ReplaceLength(s[1..], target, replacement);
      }
    }
  }

  /** A string that contains the target has at least one counted occurrence. */
  lemma {:induction false} CountPositive(s: string, p: string)
    requires Contains(s, p)
    ensures Count(s, p) >= 1
    decreases |s|
  {
    if p != [] && s != [] && !(p <= s) {
      ContainsTail(s, p);
      CountPositive(s[1..], p);
    }
  }

  /** Characters before the first occurrence of the target are copied unchanged. */
  lemma {:induction false} ReplaceKeepsClearPrefix(s: string, target: string, replacement: string, k: nat)
    requires target != []
    requires k <= |s|
    requires forall j :: 0 <= j < k ==> !OccursAt(s, target, j)
    ensures Replace(s, target, replacement) == s[..k] + Replace(s[k..], target, replacement)
    decreases k
  {
    if k > 0 {
      var tail := s[1..];
      assert !(target <= s) by {
        assert !OccursAt(s, target, 0);
        assert |target| <= |s| ==> s[0..|target|] == s[..|target|];
      }
      assert forall j :: 0 <= j < k - 1 ==> !OccursAt(tail, target, j) by {
        OccursAtTail(s, target);
      }
      ReplaceKeepsClearPrefix(tail, target, replacement, k - 1);
      ReplaceCopiesHead(s, target, replacement, k);
    }
  }

  /** The step of `ReplaceKeepsClearPrefix`: when the target does not start
      at the first character, that character is copied, so a copied prefix
      of the tail extends to one of `s` that is one character longer. */
  lemma ReplaceCopiesHead(s: string, target: string, replacement: string, k: nat)
    requires target != [] && 0 < k <= |s| && !(target <= s)
    requires Replace(s[1..], target, replacement) == s[1..][..k - 1] + Replace(s[1..][k - 1..], target, replacement)
    ensures Replace(s, target, replacement) == s[..k] + Replace(s[k..], target, replacement)
  {
    var tail, after := s[1..], Replace(s[k..], target, replacement);
    assert tail[k - 1..] == s[k..];
    calc {
      Replace(s, target, replacement);
      [s[0]] + Replace(tail, target, replacement);
      [s[0]] + (tail[..k - 1] + after);
      ([s[0]] + tail[..k - 1]) + after;
      { assert [s[0]] + tail[..k - 1] == s[..k]; }
      s[..k] + after;
    }
  }

  /** Where the target occurs, the scan started there replaces it and
      resumes right after it. */
  lemma ReplaceAtOccurrence(s: string, target: string, replacement: string, k: nat)
    requires target != []
    requires OccursAt(s, target, k)
    ensures Replace(s[k..], target, replacement) == replacement + Replace(s[k + |target|..], target, replacement)
  {
    var rest := s[k..];
    assert rest[..|target|] == s[k..k + |target|];
    assert rest[|target|..] == s[k + |target|..];
  }

  /** Left-to-right semantics: at the first occurrence of the target the
      target is replaced, everything before it is kept, and the scan resumes
      right after it. */
  lemma ReplaceAtFirstOccurrence(s: string, target: string, replacement: string, k: nat)
    requires target != []
    requires OccursAt(s, target, k)
    requires forall j :: 0 <= j < k ==> !OccursAt(s, target, j)
    ensures Replace(s, target, replacement) == s[..k] + (replacement + Replace(s[k + |target|..], target, replacement))
  {
    ReplaceKeepsClearPrefix(s, target, replacement, k);
    ReplaceAtOccurrence(s, target, replacement, k);
  }

  /** Replacing an occurrence of the target by a string of another length
      changes the length. */
  lemma ReplaceChangesLength(s: string, target: string, replacement: string)
    requires Contains(s, target)
    requires |target| != |replacement|
    ensures |Replace(s, target, replacement)| != |s|
  {
    ReplaceLength(s, target, replacement);
    CountPositive(s, target);
    ProductNonZero(Count(s, target), |replacement| - |target|);
  }

  lemma ProductNonZero(c: int, d: int)
    requires c >= 1 && d != 0
    ensures c * d != 0
  {
    if d > 0 { assert c * d >= d; } else { assert c * d <= d; }
  }

  /** Replacing an occurrence of the target by a different string changes the string. */
  lemma {:induction false} ReplaceChanges(s: string, target: string, replacement: string)
    requires Contains(s, target)
    requires target != replacement
    ensures Replace(s, target, replacement) != s
    decreases |s|
  {
    if |target| != |replacement| {
      ReplaceChangesLength(s, target, replacement);
    } else if target <= s {
      var r := Replace(s, target, replacement);
      assert r[..|target|] == replacement;
      assert s[..|target|] == target;
    } else {
      ContainsTail(s, target);
      ReplaceChanges(s[1..], target, replacement);
      assert Replace(s, target, replacement)[1..] == Replace(s[1..], target, replacement);
    }
  }

  /** No occurrence of `replacement` in `Replace(s, target, replacement)`
      starts at a character copied from `s`. Defined by the same scan as
      `Replace`, checking each copied position; occurrences starting inside
      an inserted copy are not constrained. */
  predicate NoStrayOccurrence(s: string, target: string, replacement: string)
    requires target != []
    decreases |s|
  {
    if s == [] then true
    else if target <= s then NoStrayOccurrence(s[|target|..], target, replacement)
    else !(replacement <= Replace(s, target, replacement)) && NoStrayOccurrence(s[1..], target, replacement)
  }

  /** Replacing back undoes a replacement when no occurrence of the
      replacement starts at a character copied from `s`. */
  lemma {:induction false} ReplaceRoundTrip(s: string, target: string, replacement: string)
    requires target != [] && replacement != []
    requires NoStrayOccurrence(s, target, replacement)
    ensures Replace(Replace(s, target, replacement), replacement, target) == s
    decreases |s|
  {
    if s != [] {
      var t := Replace(s, target, replacement);
      if target <= s {
        var rest := s[|target|..];
        var moved := Replace(rest, target, replacement);
        assert Replace(t, replacement, target) == target + Replace(moved, replacement, target) by {
          assert t == replacement + moved;
          assert replacement <= t && t[|replacement|..] == moved;
        }
        ReplaceRoundTrip(rest, target, replacement);
        assert s == target + rest;
      } else {
        var moved := Replace(s[1..], target, replacement);
        assert Replace(t, replacement, target) == [s[0]] + Replace(moved, replacement, target) by {
          assert t == [s[0]] + moved;
          assert !(replacement <= t) && t[1..] == moved;
        }
        ReplaceRoundTrip(s[1..], target, replacement);
        assert s == [s[0]] + s[1..];
      }
    }
  }

  /** The replacement not occurring in `s` is not enough for the round trip:
      replacing "x" by "aa" in "ax" forms a new "aa" across the edge. */
  lemma RoundTripNeedsNoStrayOccurrence()
    ensures !Contains("ax", "aa")
    ensures Replace("ax", "x", "aa") == "aaa"
    ensures Replace(Replace("ax", "x", "aa"), "aa", "x") == "xa"
    ensures !NoStrayOccurrence("ax", "x", "aa")
  {
    assert "ax"[0..2][1] != "aa"[1];
    assert Replace("x", "x", "aa") == "aa";
    assert Replace("a", "aa", "x") == "a";
  }
}
