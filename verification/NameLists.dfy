/** Ordered lists of model names: normalising, merging, subtracting and intersecting them. */
module NameLists {
  import opened Text
  import opened Sequences

  predicate IsName(x: string) {
    x != "" && Bare(x, IsSpace)
  }

  /** The shape every normalised list has: trimmed, non-empty names, each once. */
  ghost predicate Normal(xs: seq<string>) {
    NoDup(xs) && forall x | x in xs :: IsName(x)
  }

  lemma Empty(xs: seq<string>)
    ensures (forall x :: x !in xs) ==> xs == []
  {
    if xs != [] {
      assert xs[0] in xs;
    }
  }

  lemma DropLastConcat(a: seq<string>, b: seq<string>)
    requires b != []
    ensures (a + b)[..|a + b| - 1] == a + b[..|b| - 1] && (a + b)[|a + b| - 1] == b[|b| - 1]
  {
  }

  lemma ConcatAssociative(a: seq<string>, b: seq<string>, c: seq<string>)
    ensures (a + b) + c == a + (b + c)
  {
  }

  function FlatMap(f: string -> seq<string>, xs: seq<string>): seq<string> {
    if xs == [] then [] else FlatMap(f, xs[..|xs| - 1]) + f(xs[|xs| - 1])
  }

  lemma {:induction false} FlatMapConcat(f: string -> seq<string>, a: seq<string>, b: seq<string>)
    ensures FlatMap(f, a + b) == FlatMap(f, a) + FlatMap(f, b)
  {
    if b == [] {
      assert a + b == a;
    } else {
      var b', x := b[..|b| - 1], b[|b| - 1];
      FlatMapConcat(f, a, b');
      DropLastConcat(a, b);
      ConcatAssociative(FlatMap(f, a), FlatMap(f, b'), f(x));
    }
  }

  lemma {:induction false} FlatMapMembers(f: string -> seq<string>, xs: seq<string>)
    ensures forall y :: y in FlatMap(f, xs) <==> exists x | x in xs :: y in f(x)
  {
    if xs != [] {
      var past, x := xs[..|xs| - 1], xs[|xs| - 1];
      FlatMapMembers(f, past);
      assert xs == past + [x];
    }
  }

  /** The trimmed name, or nothing when it is blank. */
  function TrimmedName(x: string): seq<string> {
    var name := TrimSpace(x);
    if name == "" then [] else [name]
  }

  function Trimmed(xs: seq<string>): seq<string> {
    FlatMap(TrimmedName, xs)
  }

  lemma {:induction false} TrimmedAreNames(xs: seq<string>)
    ensures forall x | x in Trimmed(xs) :: IsName(x)
  {
    if xs != [] {
      TrimmedAreNames(xs[..|xs| - 1]);
    }
  }

  /** The first occurrence of every element, in order. */
  function Uniq(xs: seq<string>): seq<string> {
    if xs == [] then []
    else
      var r, x := Uniq(xs[..|xs| - 1]), xs[|xs| - 1];
      if x in r then r else r + [x]
  }

  lemma {:induction false} UniqMembers(xs: seq<string>)
    ensures NoDup(Uniq(xs))
    ensures forall x :: x in Uniq(xs) <==> x in xs
  {
    if xs != [] {
      var past := xs[..|xs| - 1];
      UniqMembers(past);
      assert xs == past + [xs[|xs| - 1]];
    }
  }

  function Normalize(xs: seq<string>): (r: seq<string>)
    ensures Normal(r)
  {
    TrimmedAreNames(xs);
    UniqMembers(Trimmed(xs));
    Uniq(Trimmed(xs))
  }

  lemma {:induction false} NormalizeNormal(xs: seq<string>)
    requires Normal(xs)
    ensures Trimmed(xs) == xs && Uniq(xs) == xs && Normalize(xs) == xs
  {
    if xs != [] {
      var past, x := xs[..|xs| - 1], xs[|xs| - 1];
      assert xs == past + [x];
      NormalizeNormal(past);
      assert IsName(x) && x !in past;
    }
  }

  /** The elements of xs that lie in `keep`, in order. */
  function Keep(xs: seq<string>, keep: set<string>): (r: seq<string>)
    ensures forall x :: x in r <==> x in xs && x in keep
    ensures NoDup(xs) ==> NoDup(r)
  {
    if xs == [] then []
    else
      var x := xs[|xs| - 1];
      assert xs == xs[..|xs| - 1] + [x];
      Keep(xs[..|xs| - 1], keep) + if x in keep then [x] else []
  }

  /** The elements of xs outside `drop`, in order. */
  function Drop(xs: seq<string>, drop: set<string>): (r: seq<string>)
    ensures forall x :: x in r <==> x in xs && x !in drop
    ensures NoDup(xs) ==> NoDup(r)
  {
    if xs == [] then []
    else
      var x := xs[|xs| - 1];
      assert xs == xs[..|xs| - 1] + [x];
      Drop(xs[..|xs| - 1], drop) + if x in drop then [] else [x]
  }

  function Merge(base: seq<string>, appended: seq<string>): seq<string> {
    Normalize(base + appended)
  }

  function Intersect(base: seq<string>, allowed: seq<string>): (r: seq<string>)
    ensures Normal(r)
    ensures forall x :: x in r <==> x in Normalize(base) && x in Normalize(allowed)
  {
    Keep(Normalize(base), Elems(Normalize(allowed)))
  }

  function Subtract(base: seq<string>, removed: seq<string>): (r: seq<string>)
    ensures Normal(r)
    ensures forall x :: x in r <==> x in Normalize(base) && x !in Normalize(removed)
  {
    Drop(Normalize(base), Elems(Normalize(removed)))
  }

  // ----- Merging: the loop of the source is normalising the concatenation -----

  lemma UniqEnds(start: seq<string>, extra: seq<string>)
    ensures Uniq(start + extra[..0]) == Uniq(start)
    ensures Uniq(start + extra[..|extra|]) == Uniq(start + extra)
  {
    assert start + extra[..0] == start && extra[..|extra|] == extra;
  }

  lemma UniqNext(start: seq<string>, extra: seq<string>, i: nat)
    requires i < |extra|
    ensures
      var r, x := Uniq(start + extra[..i]), extra[i];
      Uniq(start + extra[..i + 1]) == if x in r then r else r + [x]
  {
    DropLastConcat(start, extra[..i + 1]);
    assert extra[..i + 1][..i] == extra[..i];
  }

  lemma {:induction false} UniqAbsorbs(a: seq<string>, b: seq<string>)
    ensures Uniq(a + Uniq(b)) == Uniq(a + b)
  {
    if b != [] {
      var b', x := b[..|b| - 1], b[|b| - 1];
      UniqAbsorbs(a, b');
      DropLastConcat(a, b);
      UniqMembers(b');
      if x in Uniq(b') {
        UniqMembers(a + b');
      } else {
        DropLastConcat(a, Uniq(b));
        assert Uniq(b)[..|Uniq(b)| - 1] == Uniq(b');
      }
    }
  }

  lemma MergeIsUniq(base: seq<string>, appended: seq<string>)
    ensures Merge(base, appended) == Uniq(Trimmed(base) + Normalize(appended))
  {
    FlatMapConcat(TrimmedName, base, appended);
    UniqAbsorbs(Trimmed(base), Trimmed(appended));
  }

  lemma MergeMembers(base: seq<string>, appended: seq<string>)
    ensures forall x :: x in Merge(base, appended) <==> x in Normalize(base) || x in Normalize(appended)
  {
    FlatMapConcat(TrimmedName, base, appended);
    UniqMembers(Trimmed(base) + Trimmed(appended));
    UniqMembers(Trimmed(base));
    UniqMembers(Trimmed(appended));
  }

  /** Merging disjoint normal lists is concatenation, so it grows by exactly the second list. */
  lemma {:induction false} MergeDisjoint(base: seq<string>, appended: seq<string>)
    requires Normal(base) && Normal(appended) && Elems(base) !! Elems(appended)
    ensures Merge(base, appended) == base + appended
  {
    forall i, j | 0 <= i < j < |base + appended| ensures (base + appended)[i] != (base + appended)[j] {
      if i < |base| <= j {
        assert base[i] in Elems(base) && appended[j - |base|] in Elems(appended);
      }
    }
    NormalizeNormal(base + appended);
  }

  method ToSet(xs: seq<string>) returns (s: set<string>)
    ensures s == Elems(xs)
  {
    s := {};
    for i := 0 to |xs|
      invariant s == Elems(xs[..i])
    {
      assert xs[..i + 1] == xs[..i] + [xs[i]];
      s := s + {xs[i]};
    }
    assert xs[..|xs|] == xs;
  }

  method MergeModelNames(base: seq<string>, appended: seq<string>) returns (merged: seq<string>)
    ensures merged == Merge(base, appended)
  {
    MergeIsUniq(base, appended);
    merged := AppendUnseen(Trimmed(base), Normalize(base), Normalize(appended));
  }

  /** The appending loop of a merge; `start` is what `base` was made from. */
  method AppendUnseen(ghost start: seq<string>, base: seq<string>, extra: seq<string>) returns (merged: seq<string>)
    requires base == Uniq(start)
    ensures merged == Uniq(start + extra)
  {
    merged := base;
    var seen := ToSet(merged);
    UniqEnds(start, extra);
    for i := 0 to |extra|
      invariant merged == Uniq(start + extra[..i])
      invariant forall x :: x in seen <==> x in merged
    {
      UniqNext(start, extra, i);
      if extra[i] !in seen {
        seen := seen + {extra[i]};
        merged := merged + [extra[i]];
      }
    }
  }
}
