/** Option and Result, as the source uses `Option<T>` and `Result<T, Error>`. */
module Wrappers {
  datatype Option<T> = None | Some(value: T)

  datatype Result<T, E> = Ok(value: T) | Err(error: E)
}

/**
 * Generic sequence helpers shared by every module: splitting on a separator
 * (Rust's `str::split(char)`), joining with a separator (`join`), prefix,
 * suffix and infix tests (`starts_with`, `ends_with`, `contains`) and
 * left-to-right non-overlapping replacement (`str::replace`).
 */
module Seqs {

  /** `s.split(sep)`: always at least one piece; `SplitPiecesFree` shows no piece holds `sep`. */
  function Split<T(==)>(s: seq<T>, sep: T): (r: seq<seq<T>>)
    ensures |r| >= 1
    decreases |s|
  {
    if s == [] then [[]]
    else
      var rest := Split(s[1..], sep);
      if s[0] == sep then [[]] + rest
      else [[s[0]] + rest[0]] + rest[1..]
  }

  /** `parts.join(sep)`. */
  function Join<T>(parts: seq<seq<T>>, sep: T): seq<T>
  {
    if parts == [] then []
    else if |parts| == 1 then parts[0]
    else parts[0] + [sep] + Join(parts[1..], sep)
  }

  /** Joining the pieces of a split gives back the original sequence. */
  lemma {:induction false} JoinSplit<T>(s: seq<T>, sep: T)
    ensures Join(Split(s, sep), sep) == s
    decreases |s|
  {
    if s != [] {
      var rest := Split(s[1..], sep);
      JoinSplit(s[1..], sep);
      if s[0] == sep {
        JoinEmptyHead(rest, sep);
        assert Split(s, sep) == [[]] + rest;
      } else {
        JoinConsHead(s[0], rest, sep);
        assert Split(s, sep) == [[s[0]] + rest[0]] + rest[1..];
      }
      assert s == [s[0]] + s[1..];
    }
  }

  /** An empty first piece contributes only its separator. */
  lemma JoinEmptyHead<T>(rest: seq<seq<T>>, sep: T)
    requires |rest| >= 1
    ensures Join([[]] + rest, sep) == [sep] + Join(rest, sep)
  {
    assert ([[]] + rest)[1..] == rest;
  }

  /** An element put in front of the first piece comes first in the join. */
  lemma JoinConsHead<T>(x: T, rest: seq<seq<T>>, sep: T)
    requires |rest| >= 1
    ensures Join([[x] + rest[0]] + rest[1..], sep) == [x] + Join(rest, sep)
  {
    var parts := [[x] + rest[0]] + rest[1..];
    if |rest| > 1 {
      assert parts[1..] == rest[1..];
    }
  }

  /**
   * The last piece of a split is the whole sequence when there is no
   * separator, and otherwise the suffix after the last separator.
   */
  lemma SplitLastIsSuffix<T>(s: seq<T>, sep: T)
    ensures var r := Split(s, sep);
            var l := r[|r| - 1];
            IsSuffix(l, s) && (|r| == 1 ==> l == s)
            && (|r| > 1 ==> |l| < |s| && s[|s| - |l| - 1] == sep)
  {
    var r := Split(s, sep);
    var n := |r|;
    var l := r[n - 1];
    JoinSplit(s, sep);
    if n > 1 {
      var front := Join(r[..n - 1], sep);
      JoinSnoc(r[..n - 1], l, sep);
      assert r[..n - 1] + [l] == r;
      assert s == front + [sep] + l;
      assert s[|s| - |l|..] == l;
      assert s[|s| - |l| - 1] == sep;
    }
  }

  /** Number of elements equal to `x`. */
  function Count<T(==)>(s: seq<T>, x: T): nat
  {
    if s == [] then 0 else (if s[0] == x then 1 else 0) + Count(s[1..], x)
  }

  lemma {:induction false} CountAppend<T>(a: seq<T>, b: seq<T>, x: T)
    ensures Count(a + b, x) == Count(a, x) + Count(b, x)
    decreases |a|
  {
    if a == [] {
      assert a + b == b;
    } else {
      assert (a + b)[0] == a[0];
      assert (a + b)[1..] == a[1..] + b;
      CountAppend(a[1..], b, x);
    }
  }

  /** A split has one piece more than there are separators. */
  lemma {:induction false} SplitLength<T>(s: seq<T>, sep: T)
    ensures |Split(s, sep)| == Count(s, sep) + 1
    decreases |s|
  {
    if s != [] {
      SplitLength(s[1..], sep);
    }
  }

  /** No element equal to `sep`. */
  predicate Free<T(==)>(s: seq<T>, sep: T)
  {
    forall i :: 0 <= i < |s| ==> s[i] != sep
  }

  /** Splitting a join of separator-free pieces gives back the pieces. */
  lemma {:induction false} SplitJoin<T>(parts: seq<seq<T>>, sep: T)
    requires |parts| >= 1
    requires forall i :: 0 <= i < |parts| ==> Free(parts[i], sep)
    ensures Split(Join(parts, sep), sep) == parts
    decreases |parts|, |parts[0]|
  {
    var p := parts[0];
    if |parts| == 1 {
      SplitFree(p, sep);
    } else if p == [] {
      var tail := parts[1..];
      SplitJoin(tail, sep);
      assert Join(parts, sep) == [sep] + Join(tail, sep);
      assert ([sep] + Join(tail, sep))[1..] == Join(tail, sep);
      assert parts == [[]] + tail;
    } else {
      var shorter := [p[1..]] + parts[1..];
      assert shorter[1..] == parts[1..];
      SplitJoin(shorter, sep);
      var j := Join(parts, sep);
      assert j == [p[0]] + Join(shorter, sep) by {
        assert Join(shorter, sep) == p[1..] + [sep] + Join(parts[1..], sep);
        assert p == [p[0]] + p[1..];
      }
      assert j[1..] == Join(shorter, sep);
      var rest := Split(j[1..], sep);
      assert rest == shorter;
      assert Split(j, sep) == [[p[0]] + p[1..]] + parts[1..];
      assert [p[0]] + p[1..] == p;
      assert parts == [p] + parts[1..];
    }
  }

  /** A separator-free sequence splits into itself alone. */
  lemma {:induction false} SplitFree<T>(s: seq<T>, sep: T)
    requires Free(s, sep)
    ensures Split(s, sep) == [s]
    decreases |s|
  {
    if s != [] {
      SplitFree(s[1..], sep);
      assert [s[0]] + s[1..] == s;
    }
  }

  /** Appending one more piece adds the separator and the piece. */
  lemma {:induction false} JoinSnoc<T>(parts: seq<seq<T>>, p: seq<T>, sep: T)
    requires |parts| >= 1
    ensures Join(parts + [p], sep) == Join(parts, sep) + [sep] + p
    decreases |parts|
  {
    if |parts| == 1 {
      assert parts + [p] == [parts[0], p];
    } else {
      assert (parts + [p])[1..] == parts[1..] + [p];
      JoinSnoc(parts[1..], p, sep);
    }
  }

  /** Prepending one more piece adds the piece and the separator. */
  lemma JoinCons<T>(p: seq<T>, parts: seq<seq<T>>, sep: T)
    requires |parts| >= 1
    ensures Join([p] + parts, sep) == p + [sep] + Join(parts, sep)
  {
    assert ([p] + parts)[1..] == parts;
  }

  /** Joining two non-empty runs of pieces puts one separator between them. */
  lemma {:induction false} JoinAppend<T>(a: seq<seq<T>>, b: seq<seq<T>>, sep: T)
    requires |a| >= 1 && |b| >= 1
    ensures Join(a + b, sep) == Join(a, sep) + [sep] + Join(b, sep)
    decreases |a|
  {
    if |a| == 1 {
      assert a + b == [a[0]] + b;
      JoinCons(a[0], b, sep);
    } else {
      var rest := a[1..];
      assert a + b == [a[0]] + (rest + b);
      assert a == [a[0]] + rest;
      JoinCons(a[0], rest + b, sep);
      JoinCons(a[0], rest, sep);
      JoinAppend(rest, b, sep);
      var x, y, z := Join(rest, sep), Join(b, sep), [sep];
      assert a[0] + z + (x + z + y) == (a[0] + z + x) + z + y;
    }
  }

  /** The join of the first pieces is a prefix of the join of all of them. */
  lemma JoinTakeIsPrefix<T>(parts: seq<seq<T>>, k: nat, sep: T)
    requires k <= |parts|
    ensures IsPrefix(Join(parts[..k], sep), Join(parts, sep))
  {
    if 0 < k < |parts| {
      JoinAppend(parts[..k], parts[k..], sep);
      assert parts[..k] + parts[k..] == parts;
    } else if k == |parts| {
      assert parts[..k] == parts;
    }
  }

  /** The join of the last pieces is a suffix of the join of all of them. */
  lemma JoinDropIsSuffix<T>(parts: seq<seq<T>>, k: nat, sep: T)
    requires k <= |parts|
    ensures IsSuffix(Join(parts[k..], sep), Join(parts, sep))
  {
    if 0 < k < |parts| {
      JoinAppend(parts[..k], parts[k..], sep);
      assert parts[..k] + parts[k..] == parts;
    } else if k == 0 {
      assert parts[k..] == parts;
    }
  }

  /** Taking one more piece adds a separator (unless it is the first) and the piece. */
  lemma JoinTakeStep<T>(parts: seq<seq<T>>, j: nat, sep: T)
    requires j < |parts|
    ensures Join(parts[..j + 1], sep) == Join(parts[..j], sep) + (if j > 0 then [sep] else []) + parts[j]
  {
    assert parts[..j + 1] == parts[..j] + [parts[j]];
    if j > 0 {
      JoinSnoc(parts[..j], parts[j], sep);
    }
  }

  /** Joining separator-free pieces puts exactly one separator between neighbours. */
  lemma {:induction false} CountJoinFree<T>(parts: seq<seq<T>>, sep: T)
    requires |parts| >= 1
    requires forall i :: 0 <= i < |parts| ==> Free(parts[i], sep)
    ensures Count(Join(parts, sep), sep) == |parts| - 1
    decreases |parts|
  {
    CountFree(parts[0], sep);
    if |parts| > 1 {
      CountJoinFree(parts[1..], sep);
      CountAppend(parts[0] + [sep], Join(parts[1..], sep), sep);
      CountAppend(parts[0], [sep], sep);
      assert Count([sep], sep) == 1 by {
        assert [sep][1..] == [];
      }
    }
  }

  lemma {:induction false} CountFree<T>(s: seq<T>, sep: T)
    requires Free(s, sep)
    ensures Count(s, sep) == 0
    decreases |s|
  {
    if s != [] {
      CountFree(s[1..], sep);
    }
  }

  /** Sum of the lengths of the pieces. */
  function SumLens<T>(parts: seq<seq<T>>): nat
  {
    if parts == [] then 0 else |parts[0]| + SumLens(parts[1..])
  }

  lemma {:induction false} SumLensSnoc<T>(parts: seq<seq<T>>, p: seq<T>)
    ensures SumLens(parts + [p]) == SumLens(parts) + |p|
    decreases |parts|
  {
    if parts != [] {
      assert (parts + [p])[1..] == parts[1..] + [p];
      SumLensSnoc(parts[1..], p);
    }
  }

  /** The joined length: every piece plus one separator between neighbours. */
  lemma {:induction false} JoinLength<T>(parts: seq<seq<T>>, sep: T)
    ensures |parts| >= 1 ==> |Join(parts, sep)| == SumLens(parts) + |parts| - 1
    ensures parts == [] ==> Join(parts, sep) == []
    decreases |parts|
  {
    if |parts| > 1 {
      JoinLength(parts[1..], sep);
    }
  }

  predicate IsPrefix<T(==)>(p: seq<T>, s: seq<T>)
  {
    |p| <= |s| && s[..|p|] == p
  }

  predicate IsSuffix<T(==)>(p: seq<T>, s: seq<T>)
  {
    |p| <= |s| && s[|s| - |p|..] == p
  }

  lemma SuffixTransitive<T>(a: seq<T>, b: seq<T>, c: seq<T>)
    requires IsSuffix(a, b) && IsSuffix(b, c)
    ensures IsSuffix(a, c)
  {
    assert c[|c| - |a|..] == c[|c| - |b|..][|b| - |a|..];
  }

  /** `p` occurs in `s` starting at index `i`. */
  predicate OccursAt<T(==)>(s: seq<T>, p: seq<T>, i: int)
  {
    0 <= i && i + |p| <= |s| && s[i..i + |p|] == p
  }

  /** `s.contains(p)`. */
  predicate Contains<T(==)>(s: seq<T>, p: seq<T>)
  {
    exists i :: 0 <= i <= |s| - |p| && OccursAt(s, p, i)
  }

  /** `s.strip_prefix(p).unwrap_or(s)`. */
  function StripPrefix<T(==)>(s: seq<T>, p: seq<T>): (r: seq<T>)
    ensures IsPrefix(p, s) ==> p + r == s
    ensures !IsPrefix(p, s) ==> r == s
  {
    if IsPrefix(p, s) then s[|p|..] else s
  }

  /**
   * `s.replace(pat, rep)` for a non-empty pattern: a left-to-right scan that
   * replaces each non-overlapping occurrence.
   */
  function ReplaceAll<T(==)>(s: seq<T>, pat: seq<T>, rep: seq<T>): seq<T>
    requires pat != []
    decreases |s|
  {
    if s == [] then []
    else if IsPrefix(pat, s) then rep + ReplaceAll(s[|pat|..], pat, rep)
    else [s[0]] + ReplaceAll(s[1..], pat, rep)
  }

  /** A pattern that never occurs leaves the sequence unchanged. */
  lemma {:induction false} ReplaceAbsent<T>(s: seq<T>, pat: seq<T>, rep: seq<T>)
    requires pat != []
    requires !Contains(s, pat)
    ensures ReplaceAll(s, pat, rep) == s
    decreases |s|
  {
    if s != [] {
      assert !IsPrefix(pat, s) by {
        if IsPrefix(pat, s) { assert OccursAt(s, pat, 0); }
      }
      assert !Contains(s[1..], pat) by {
        if Contains(s[1..], pat) {
          var i :| 0 <= i <= |s[1..]| - |pat| && OccursAt(s[1..], pat, i);
          assert s[1..][i..i + |pat|] == s[i + 1..i + 1 + |pat|];
          assert OccursAt(s, pat, i + 1);
        }
      }
      ReplaceAbsent(s[1..], pat, rep);
      assert [s[0]] + s[1..] == s;
    }
  }

  /** No piece of a split holds the separator. */
  lemma {:induction false} SplitPiecesFree<T>(s: seq<T>, sep: T)
    ensures forall i :: 0 <= i < |Split(s, sep)| ==> Free(Split(s, sep)[i], sep)
    decreases |s|
  {
    if s != [] {
      SplitPiecesFree(s[1..], sep);
    }
  }

  /** The pieces of a split hold nothing the whole sequence does not. */
  lemma {:induction false} SplitKeepsFree<T>(s: seq<T>, sep: T, x: T)
    requires Free(s, x)
    ensures forall i :: 0 <= i < |Split(s, sep)| ==> Free(Split(s, sep)[i], x)
    decreases |s|
  {
    if s != [] {
      SplitKeepsFree(s[1..], sep, x);
    }
  }

  /** A join of pieces free of `x` is free of `x` when the separator is not `x`. */
  lemma {:induction false} JoinKeepsFree<T>(parts: seq<seq<T>>, sep: T, x: T)
    requires sep != x
    requires forall i :: 0 <= i < |parts| ==> Free(parts[i], x)
    ensures Free(Join(parts, sep), x)
    decreases |parts|
  {
    if |parts| > 1 {
      JoinKeepsFree(parts[1..], sep, x);
    }
  }

  /** Splitting around one separator splits each side on its own. */
  lemma SplitAround<T>(a: seq<T>, b: seq<T>, sep: T)
    ensures Split(a + [sep] + b, sep) == Split(a, sep) + Split(b, sep)
  {
    var pa, pb := Split(a, sep), Split(b, sep);
    JoinSplit(a, sep);
    JoinSplit(b, sep);
    SplitPiecesFree(a, sep);
    SplitPiecesFree(b, sep);
    JoinAppend(pa, pb, sep);
    assert forall i :: 0 <= i < |pa + pb| ==> Free((pa + pb)[i], sep) by {
      forall i | 0 <= i < |pa + pb| ensures Free((pa + pb)[i], sep) {
        if i < |pa| { assert (pa + pb)[i] == pa[i]; } else { assert (pa + pb)[i] == pb[i - |pa|]; }
      }
    }
    SplitJoin(pa + pb, sep);
  }

  /** Elementwise map of a character function, as `chars().map(f).collect()`. */
  function Map<T, U>(s: seq<T>, f: T -> U): (r: seq<U>)
    ensures |r| == |s|
    ensures forall i :: 0 <= i < |s| ==> r[i] == f(s[i])
  {
    seq(|s|, i requires 0 <= i < |s| => f(s[i]))
  }
}
