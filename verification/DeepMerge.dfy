/** The recursive merge that turns a partial patch into a full replacement body. */
module DeepMerge {
  import opened Prelude
  import opened Json

  /** Two dictionaries merge key by key; any other patch value replaces the base value. */
  function Overlay(base: Json, patch: Json): Json
    decreases patch
  {
    if base.Dict? && patch.Dict? then
      Dict(map k | k in base.m.Keys + patch.m.Keys ::
             if k !in patch.m then base.m[k]
             else if k in base.m then Overlay(base.m[k], patch.m[k])
             else patch.m[k])
    else patch
  }

  /** The loop over the patch items, filling a copy of the base. Keys come in any order. */
  method DeepMerge(base: map<string, Json>, patch: map<string, Json>) returns (out: map<string, Json>)
    ensures Dict(out) == Overlay(Dict(base), Dict(patch))
    decreases Dict(patch)
  {
    out := base;
    var rest := patch.Keys;
    while rest != {}
      invariant rest <= patch.Keys
      invariant out.Keys == base.Keys + (patch.Keys - rest)
      invariant forall k | k in out ::
          out[k] == if k !in patch || k in rest then base[k]
                    else if k in base then Overlay(base[k], patch[k]) else patch[k]
      decreases rest
    {
      var k :| k in rest;
      var v := patch[k];
      if v.Dict? && k in out && out[k].Dict? {
        var inner := DeepMerge(out[k].m, v.m);
        out := out[k := Dict(inner)];
      } else {
        out := out[k := v];
      }
      rest := rest - {k};
    }
  }

  // ---------- Reading a merged configuration ----------

  /** Base and patch are both dictionaries at every prefix of path up to length n. */
  predicate MergedUpTo(base: Json, patch: Json, path: Path, n: nat)
    requires n <= |path|
  {
    forall i | 0 <= i <= n :: DictAt(base, path[..i]) && DictAt(patch, path[..i])
  }

  lemma AtStep(j: Json, path: Path, i: nat)
    requires 0 < i <= |path| && j.Dict? && path[0] in j.m
    ensures At(j, path[..i]) == At(j.m[path[0]], path[1..][..i - 1])
  {
    assert path[..i][1..] == path[1..][..i - 1];
  }

  lemma MergedUpToStep(base: Json, patch: Json, path: Path, n: nat)
    requires 0 < n <= |path| && MergedUpTo(base, patch, path, n)
    ensures base.Dict? && patch.Dict? && path[0] in base.m && path[0] in patch.m
    ensures MergedUpTo(base.m[path[0]], patch.m[path[0]], path[1..], n - 1)
  {
    assert path[..0] == [] && path[..1] == [path[0]];
    assert DictAt(base, path[..0]) && DictAt(patch, path[..0]);
    assert DictAt(base, path[..1]) && DictAt(patch, path[..1]);
    forall i | 0 <= i <= n - 1
      ensures DictAt(base.m[path[0]], path[1..][..i]) && DictAt(patch.m[path[0]], path[1..][..i])
    {
      AtStep(base, path, i + 1);
      AtStep(patch, path, i + 1);
      assert DictAt(base, path[..i + 1]) && DictAt(patch, path[..i + 1]);
    }
  }

  /**
   Where the two stop being merged, after n keys of the path: if the patch mentions the next key the merge reads as
   the patch from there on, otherwise as the base.
   */
  lemma {:induction false} ReadAtFork(base: Json, patch: Json, path: Path, n: nat)
    requires n < |path| && MergedUpTo(base, patch, path, n)
    requires !(DictAt(base, path[..n + 1]) && DictAt(patch, path[..n + 1]))
    ensures At(Overlay(base, patch), path)
            == if At(patch, path[..n + 1]).Some? then At(patch, path) else At(base, path)
  {
    assert path[..0] == [];
    assert DictAt(base, path[..0]) && DictAt(patch, path[..0]);
    var k := path[0];
    if n == 0 {
      assert path[..1][1..] == [];
      assert At(base, path[..1]) == if k in base.m then Some(base.m[k]) else None;
      assert At(patch, path[..1]) == if k in patch.m then Some(patch.m[k]) else None;
    } else {
      MergedUpToStep(base, patch, path, n);
      AtStep(base, path, n + 1);
      AtStep(patch, path, n + 1);
      ReadAtFork(base.m[k], patch.m[k], path[1..], n - 1);
      assert path[1..][..n] == path[1..][..n - 1 + 1];
    }
  }

  /** A non-dictionary value of the patch always wins. */
  lemma {:induction false} PatchLeafWins(base: Json, patch: Json, path: Path)
    requires At(patch, path).Some? && !At(patch, path).value.Dict?
    ensures At(Overlay(base, patch), path) == At(patch, path)
  {
    if path != [] && base.Dict? && path[0] in base.m {
      PatchLeafWins(base.m[path[0]], patch.m[path[0]], path[1..]);
    }
  }

  /** The patch leaves a path alone: it runs out of keys along it, and never into a non-dictionary. */
  predicate Untouched(patch: Json, path: Path)
  {
    patch.Dict? && path != [] && (path[0] !in patch.m || Untouched(patch.m[path[0]], path[1..]))
  }

  /** What the patch leaves alone reads as in the base, whether present or absent there. */
  lemma {:induction false} UntouchedPathSurvives(base: Json, patch: Json, path: Path)
    requires Untouched(patch, path)
    ensures At(patch, path) == None
    ensures At(Overlay(base, patch), path) == At(base, path)
    decreases path
  {
    var k := path[0];
    if k in patch.m {
      UntouchedPathSurvives(if base.Dict? && k in base.m then base.m[k] else Null, patch.m[k], path[1..]);
    }
  }

  // ---------- Algebra ----------

  /** Applying a patch twice is applying it once. */
  lemma {:induction false} OverlayIdempotent(base: Json, patch: Json)
    ensures Overlay(Overlay(base, patch), patch) == Overlay(base, patch)
    decreases patch
  {
    if patch.Dict? {
      if base.Dict? {
        var once := Overlay(base, patch);
        var twice := Overlay(once, patch);
        forall k | k in once.m ensures twice.m[k] == once.m[k] {
          if k in patch.m {
            if k in base.m { OverlayIdempotent(base.m[k], patch.m[k]); } else { OverlaySelf(patch.m[k]); }
          }
        }
        assert twice.m.Keys == once.m.Keys;
      } else {
        OverlaySelf(patch);
      }
    }
  }

  lemma {:induction false} OverlaySelf(j: Json)
    ensures Overlay(j, j) == j
  {
    if j.Dict? {
      forall k | k in j.m ensures Overlay(j.m[k], j.m[k]) == j.m[k] { OverlaySelf(j.m[k]); }
      assert Overlay(j, j).m == j.m;
    }
  }

  /** Every key of a is a key of c, all the way down to where c stops being a dictionary. */
  predicate Covered(a: Json, c: Json)
    decreases c
  {
    a.Dict? && c.Dict? ==> forall k | k in a.m :: k in c.m && Covered(a.m[k], c.m[k])
  }

  /** The patch hides the base completely exactly when it covers it. */
  lemma {:induction false} OverlayIsPatchIff(a: Json, c: Json)
    ensures Overlay(a, c) == c <==> Covered(a, c)
    decreases c
  {
    if a.Dict? && c.Dict? {
      var o := Overlay(a, c).m;
      forall k | k in a.m && k in c.m ensures Overlay(a.m[k], c.m[k]) == c.m[k] <==> Covered(a.m[k], c.m[k]) {
        OverlayIsPatchIff(a.m[k], c.m[k]);
      }
      if Covered(a, c) {
        assert o.Keys == c.m.Keys;
        forall k | k in o ensures o[k] == c.m[k] {
          if k in a.m { OverlayIsPatchIff(a.m[k], c.m[k]); }
        }
        assert o == c.m;
      } else {
        var k :| k in a.m && !(k in c.m && Covered(a.m[k], c.m[k]));
        assert k in o;
        if k in c.m { assert o[k] == Overlay(a.m[k], c.m[k]) != c.m[k]; }
      }
    }
  }

  /**
   When two patches may be combined before they are applied: wherever the first patch replaces a base dictionary by
   a non-dictionary and the second puts a dictionary back, that dictionary covers the lost one.
   */
  predicate MayRegroup(a: Json, b: Json, c: Json)
    decreases c
  {
    if !a.Dict? || !c.Dict? then true
    else if !b.Dict? then Covered(a, c)
    else forall k | k in a.m && k in b.m && k in c.m :: MayRegroup(a.m[k], b.m[k], c.m[k])
  }

  lemma {:induction false} RegroupKey(a: Json, b: Json, c: Json, k: string)
    requires a.Dict? && b.Dict? && c.Dict? && (k in a.m || k in b.m || k in c.m)
    ensures var l, r := Overlay(Overlay(a, b), c), Overlay(a, Overlay(b, c));
            && l.Dict? && r.Dict? && k in l.m && k in r.m
            && (k in a.m && k in b.m && k in c.m ==>
                  && l.m[k] == Overlay(Overlay(a.m[k], b.m[k]), c.m[k])
                  && r.m[k] == Overlay(a.m[k], Overlay(b.m[k], c.m[k])))
            && (!(k in a.m && k in b.m && k in c.m) ==> l.m[k] == r.m[k])
  {
  }

  /** Merging is associative exactly where regrouping loses nothing. */
  lemma {:induction false} OverlayAssociativeIff(a: Json, b: Json, c: Json)
    ensures Overlay(Overlay(a, b), c) == Overlay(a, Overlay(b, c)) <==> MayRegroup(a, b, c)
    decreases c
  {
    if a.Dict? && c.Dict? {
      if !b.Dict? {
        OverlayIsPatchIff(a, c);
      } else {
        var l, r := Overlay(Overlay(a, b), c), Overlay(a, Overlay(b, c));
        assert l.m.Keys == a.m.Keys + b.m.Keys + c.m.Keys == r.m.Keys;
        forall k | k in l.m
          ensures l.m[k] == r.m[k] <==> (k in a.m && k in b.m && k in c.m ==> MayRegroup(a.m[k], b.m[k], c.m[k]))
        {
          RegroupKey(a, b, c, k);
          if k in a.m && k in b.m && k in c.m { OverlayAssociativeIff(a.m[k], b.m[k], c.m[k]); }
        }
        if MayRegroup(a, b, c) {
          assert l.m == r.m;
        } else {
          var k :| k in a.m && k in b.m && k in c.m && !MayRegroup(a.m[k], b.m[k], c.m[k]);
          assert l.m[k] != r.m[k];
        }
      }
    }
  }
}
