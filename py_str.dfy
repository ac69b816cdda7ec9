/**
 * The handful of Python string builtins the claim detector is built from:
 * `str.lower()`, the substring test `needle in hay`, `str.split(sep)` with a
 * one-character separator, and its inverse `sep.join(parts)`.
 */
module PyStr {

  /** `c.lower()` restricted to ASCII: upper-case letters map to lower case,
      every other character is left alone. */
  function LowerChar(c: char): (r: char)
    ensures 'A' <= c <= 'Z' ==> r as int == c as int + 32
    ensures !('A' <= c <= 'Z') ==> r == c
    ensures !('A' <= r <= 'Z')
  {
    if 'A' <= c <= 'Z' then (c as int + 32) as char else c
  }

  /** `s.lower()`: lower-cases character by character, keeping the length. */
  function Lower(s: string): (r: string)
    ensures |r| == |s|
    ensures forall i :: 0 <= i < |s| ==> r[i] == LowerChar(s[i])
  {
    seq(|s|, i requires 0 <= i < |s| => LowerChar(s[i]))
  }

  lemma LowerIdempotent(s: string)
    ensures Lower(Lower(s)) == Lower(s)
  {
  }

  lemma LowerConcat(a: string, b: string)
    ensures Lower(a + b) == Lower(a) + Lower(b)
  {
  }

  /** A string with no ASCII upper-case letter is its own lower-case form. */
  lemma LowerOfLowerCase(s: string)
    requires forall i :: 0 <= i < |s| ==> !('A' <= s[i] <= 'Z')
    ensures Lower(s) == s
  {
  }

  /** Python's `needle in hay` on strings, defined by scanning `hay` from the
      left: the needle is a prefix here or occurs further on. */
  predicate Contains(hay: string, needle: string)
    ensures |needle| == 0 ==> Contains(hay, needle)
    ensures Contains(hay, needle) ==> |needle| <= |hay|
    decreases |hay|
  {
    needle <= hay || (|hay| > 0 && Contains(hay[1..], needle))
  }

  /** The reference reading of `needle in hay`: some window of `hay` equals `needle`. */
  ghost predicate OccursAt(hay: string, needle: string, i: int)
  {
    0 <= i && i + |needle| <= |hay| && hay[i..i + |needle|] == needle
  }

  /** Any window occurrence is found by the scan. */
  lemma {:induction false} ContainsFromOccurs(hay: string, needle: string, i: int)
    requires OccursAt(hay, needle, i)
    ensures Contains(hay, needle)
    decreases i
  {
    if i == 0 {
      assert hay[..|needle|] == needle;
    } else {
      assert hay[1..][i - 1..i - 1 + |needle|] == hay[i..i + |needle|];
      ContainsFromOccurs(hay[1..], needle, i - 1);
    }
  }

  /** What the scan finds is a window occurrence. */
  lemma {:induction false} OccursFromContains(hay: string, needle: string) returns (i: int)
    requires Contains(hay, needle)
    ensures OccursAt(hay, needle, i)
    decreases |hay|
  {
    if needle <= hay {
      assert hay[0..|needle|] == needle;
      i := 0;
    } else {
      var j := OccursFromContains(hay[1..], needle);
      assert hay[1..][j..j + |needle|] == hay[j + 1..j + 1 + |needle|];
      i := j + 1;
    }
  }

  /** The scanning definition and the window definition agree, in both directions. */
  lemma ContainsIff(hay: string, needle: string)
    ensures Contains(hay, needle) <==> exists i :: OccursAt(hay, needle, i)
  {
    if Contains(hay, needle) {
      var i := OccursFromContains(hay, needle);
    }
    forall i | OccursAt(hay, needle, i) ensures Contains(hay, needle) {
      ContainsFromOccurs(hay, needle, i);
    }
  }

  /** An occurrence survives putting more text on either side. */
  lemma ContainsExtend(p: string, w: string, q: string, needle: string)
    requires Contains(w, needle)
    ensures Contains(p + w + q, needle)
  {
    var i := OccursFromContains(w, needle);
    assert (p + w + q)[|p| + i..|p| + i + |needle|] == w[i..i + |needle|];
    ContainsFromOccurs(p + w + q, needle, |p| + i);
  }

  /** `s[:n]` for `n >= 0`: the first `n` characters, or all of `s` when it is shorter. */
  function Take(s: string, n: nat): (r: string)
    ensures |r| == if n <= |s| then n else |s|
    ensures r <= s
  {
    if n <= |s| then s[..n] else s
  }

  /** Every character of an occurring needle is a character of the haystack. */
  lemma ContainsChars(hay: string, needle: string)
    requires Contains(hay, needle)
    ensures forall c :: c in needle ==> c in hay
  {
  }

  /** Number of occurrences of the character `c` in `s`. */
  function Count(s: string, c: char): (n: nat)
    ensures n <= |s|
    ensures n == 0 <==> c !in s
  {
    if |s| == 0 then 0 else (if s[0] == c then 1 else 0) + Count(s[1..], c)
  }

  /** `s.split(sep)` for a one-character separator: cuts at every `sep`,
      keeping empty pieces, so there is always at least one piece. */
  function Split(s: string, sep: char): (parts: seq<string>)
    ensures |parts| >= 1
  {
    if |s| == 0 then [""]
    else
      var rest := Split(s[1..], sep);
      if s[0] == sep then [""] + rest
      else [[s[0]] + rest[0]] + rest[1..]
  }

  /** `sep.join(parts)`. */
  function Join(parts: seq<string>, sep: char): string
  {
    if |parts| == 0 then ""
    else if |parts| == 1 then parts[0]
    else parts[0] + [sep] + Join(parts[1..], sep)
  }

  /** No piece of a split contains the separator. */
  lemma {:induction false} SplitNoSep(s: string, sep: char)
    ensures forall k :: 0 <= k < |Split(s, sep)| ==> sep !in Split(s, sep)[k]
  {
    if |s| > 0 {
      SplitNoSep(s[1..], sep);
    }
  }

  /** Splitting and joining back reproduces the input exactly. */
  lemma {:induction false} JoinSplit(s: string, sep: char)
    ensures Join(Split(s, sep), sep) == s
  {
    if |s| > 0 {
      var rest := Split(s[1..], sep);
      JoinSplit(s[1..], sep);
      if s[0] == sep {
        assert Split(s, sep) == [""] + rest;
        assert ([""] + rest)[1..] == rest;
      } else {
        var parts := Split(s, sep);
        assert parts == [[s[0]] + rest[0]] + rest[1..];
        if |rest| == 1 {
          assert Join(rest, sep) == rest[0];
        } else {
          assert parts[1..] == rest[1..];
          assert Join(rest, sep) == rest[0] + [sep] + Join(rest[1..], sep);
        }
      }
    }
  }

  /** The number of pieces is one more than the number of separators. */
  lemma {:induction false} SplitCount(s: string, sep: char)
    ensures |Split(s, sep)| == Count(s, sep) + 1
  {
    if |s| > 0 {
      SplitCount(s[1..], sep);
    }
  }

  /** The other direction of the round trip: separator-free pieces, joined and
      split again, come back unchanged. So `Split` is the only list of
      separator-free pieces that joins to `s`. */
  lemma {:induction false} SplitJoin(parts: seq<string>, sep: char)
    requires |parts| >= 1
    requires forall k :: 0 <= k < |parts| ==> sep !in parts[k]
    ensures Split(Join(parts, sep), sep) == parts
    decreases |parts|, |parts[0]|
  {
    if |parts[0]| > 0 {
      // Peel the first character off the first piece.
      var c := parts[0][0];
      var parts' := [parts[0][1..]] + parts[1..];
      assert parts'[1..] == parts[1..];
      assert parts[0] == [c] + parts[0][1..];
      assert Join(parts, sep) == [c] + Join(parts', sep);
      SplitJoin(parts', sep);
      assert c != sep by { assert parts[0][0] in parts[0]; }
      assert ([c] + Join(parts', sep))[1..] == Join(parts', sep);
      assert [c] + parts'[0] == parts[0];
    } else if |parts| > 1 {
      SplitJoin(parts[1..], sep);
      assert Join(parts, sep) == [sep] + Join(parts[1..], sep);
      assert ([sep] + Join(parts[1..], sep))[1..] == Join(parts[1..], sep);
      assert parts == [""] + parts[1..];
    } else {
      assert parts == [""];
    }
  }

  /** Uniqueness of the split, a corollary of the round trips. */
  lemma SplitUnique(s: string, parts: seq<string>, sep: char)
    requires |parts| >= 1
    requires forall k :: 0 <= k < |parts| ==> sep !in parts[k]
    requires Join(parts, sep) == s
    ensures parts == Split(s, sep)
  {
    SplitJoin(parts, sep);
  }

  /** Every piece sits inside the joined string, with text around it. */
  lemma {:induction false} JoinFactor(parts: seq<string>, sep: char, k: int)
    requires 0 <= k < |parts|
    ensures exists p, q :: Join(parts, sep) == p + parts[k] + q
  {
    if |parts| == 1 {
      assert Join(parts, sep) == "" + parts[k] + "";
    } else if k == 0 {
      assert Join(parts, sep) == "" + parts[0] + ([sep] + Join(parts[1..], sep));
    } else {
      JoinFactor(parts[1..], sep, k - 1);
      var p, q :| Join(parts[1..], sep) == p + parts[1..][k - 1] + q;
      assert Join(parts, sep) == (parts[0] + [sep] + p) + parts[k] + q;
    }
  }

  /** Lower-cases every string of a list. */
  function LowerAll(xs: seq<string>): (r: seq<string>)
    ensures |r| == |xs|
    ensures forall k :: 0 <= k < |xs| ==> r[k] == Lower(xs[k])
  {
    seq(|xs|, k requires 0 <= k < |xs| => Lower(xs[k]))
  }

  /** Splitting commutes with lower-casing when the separator is not a letter,
      so lower-casing never moves a cut. */
  lemma {:induction false} SplitLower(s: string, sep: char)
    requires !('A' <= sep <= 'Z') && !('a' <= sep <= 'z')
    ensures Split(Lower(s), sep) == LowerAll(Split(s, sep))
  {
    if |s| > 0 {
      SplitLower(s[1..], sep);
      assert Lower(s)[1..] == Lower(s[1..]);
      var rest := Split(s[1..], sep);
      assert (LowerChar(s[0]) == sep) == (s[0] == sep);
      if s[0] != sep {
        assert Lower([s[0]] + rest[0]) == [LowerChar(s[0])] + Lower(rest[0]);
      }
    }
  }

  /** `[x for x in xs if p(x)]`, keeping the order. */
  function Filter<T>(p: T -> bool, xs: seq<T>): (kept: seq<T>)
    ensures |kept| <= |xs|
    ensures forall x :: x in kept ==> x in xs && p(x)
  {
    if |xs| == 0 then []
    else (if p(xs[0]) then [xs[0]] else []) + Filter(p, xs[1..])
  }

  /** Positions listed in strictly increasing order. */
  ghost predicate Increasing(idx: seq<int>)
  {
    forall a, b :: 0 <= a < b < |idx| ==> idx[a] < idx[b]
  }

  /** The `j`-th element of `kept` is the element of `xs` at position `idx[j]`. */
  ghost predicate TakenFrom<T>(kept: seq<T>, xs: seq<T>, idx: seq<int>)
  {
    |idx| == |kept| && forall j :: 0 <= j < |idx| ==> 0 <= idx[j] < |xs| && kept[j] == xs[idx[j]]
  }

  /** `idx` lists the positions of `xs` whose element satisfies `p`, and no others. */
  ghost predicate ExactlyWhere<T>(p: T -> bool, xs: seq<T>, idx: seq<int>)
  {
    forall i :: 0 <= i < |xs| ==> (p(xs[i]) <==> i in idx)
  }

  /** `kept` lists, in their original order and unmodified, exactly those
      elements of `xs` that satisfy `p`; `idx` says where each came from. */
  ghost predicate SelectedAt<T>(p: T -> bool, kept: seq<T>, xs: seq<T>, idx: seq<int>)
  {
    Increasing(idx) && TakenFrom(kept, xs, idx) && ExactlyWhere(p, xs, idx)
  }

  /** Every position moved by `d`; bookkeeping for the proofs below. */
  ghost function Shift(idx: seq<int>, d: int): (r: seq<int>)
    ensures |r| == |idx|
    ensures forall j :: 0 <= j < |idx| ==> r[j] == idx[j] + d
  {
    seq(|idx|, j requires 0 <= j < |idx| => idx[j] + d)
  }

  /** A selection from `xs` extends to one from `[x] + xs`. */
  lemma SelectedCons<T>(p: T -> bool, x: T, xs: seq<T>, kept: seq<T>, idx: seq<int>)
    requires SelectedAt(p, kept, xs, idx)
    ensures SelectedAt(p, (if p(x) then [x] else []) + kept, [x] + xs,
                       (if p(x) then [0] else []) + Shift(idx, 1))
  {
  }

  /** A selection from a non-empty `xs` gives one from `xs[1..]`. */
  lemma SelectedTail<T>(p: T -> bool, kept: seq<T>, xs: seq<T>, idx: seq<int>)
    requires |xs| > 0
    requires SelectedAt(p, kept, xs, idx)
    ensures p(xs[0]) ==>
              |kept| > 0 && kept[0] == xs[0] && SelectedAt(p, kept[1..], xs[1..], Shift(idx[1..], -1))
    ensures !p(xs[0]) ==> SelectedAt(p, kept, xs[1..], Shift(idx, -1))
  {
  }

  /** The filter keeps exactly the elements that satisfy `p`, in order. */
  lemma {:induction false} FilterSelects<T>(p: T -> bool, xs: seq<T>) returns (idx: seq<int>)
    ensures SelectedAt(p, Filter(p, xs), xs, idx)
  {
    if |xs| == 0 {
      idx := [];
    } else {
      var tail := FilterSelects(p, xs[1..]);
      SelectedCons(p, xs[0], xs[1..], Filter(p, xs[1..]), tail);
      assert [xs[0]] + xs[1..] == xs;
      idx := (if p(xs[0]) then [0] else []) + Shift(tail, 1);
    }
  }

  /** And nothing else has that description: any ordered selection of exactly
      the elements that satisfy `p` is the filter's result. */
  lemma {:induction false} SelectedIsFilter<T>(p: T -> bool, kept: seq<T>, xs: seq<T>, idx: seq<int>)
    requires SelectedAt(p, kept, xs, idx)
    ensures kept == Filter(p, xs)
    decreases |xs|
  {
    if |xs| > 0 {
      SelectedTail(p, kept, xs, idx);
      if p(xs[0]) {
        SelectedIsFilter(p, kept[1..], xs[1..], Shift(idx[1..], -1));
        assert kept == [kept[0]] + kept[1..];
      } else {
        SelectedIsFilter(p, kept, xs[1..], Shift(idx, -1));
      }
    }
  }

  /** Filtering commutes with lower-casing when the test ignores case. */
  lemma {:induction false} FilterLower(p: string -> bool, xs: seq<string>)
    requires forall s :: p(Lower(s)) == p(s)
    ensures Filter(p, LowerAll(xs)) == LowerAll(Filter(p, xs))
  {
    if |xs| > 0 {
      FilterLower(p, xs[1..]);
      assert LowerAll(xs)[1..] == LowerAll(xs[1..]);
      var tail := Filter(p, xs[1..]);
      if p(xs[0]) {
        assert LowerAll([xs[0]] + tail) == [Lower(xs[0])] + LowerAll(tail);
      } else {
        assert Filter(p, xs) == tail;
      }
    }
  }
}
