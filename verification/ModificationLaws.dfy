/** What an author's path-addressed modifications do to a plan. */
module ModificationLaws {
  import opened Wrappers
  import opened Values
  import opened Paths
  import opened Plan
  import Schema

  // --- replacement paths ------------------------------------------------------

  /** The mechanical paths come first, the added ones are new and distinct, and
      together they are the union. */
  lemma {:induction false} ExtendedIsUnion(replace: seq<Path>, paths: seq<Path>)
    ensures replace <= Extended(replace, paths)
    ensures forall p :: p in Extended(replace, paths) <==> p in replace || p in paths
    ensures var all := Extended(replace, paths);
            forall i, j | 0 <= i < j < |all| && j >= |replace| :: all[i] != all[j]
  {
    if paths != [] {
      var n := |paths| - 1;
      ExtendedIsUnion(replace, paths[..n]);
      assert paths == paths[..n] + [paths[n]];
    }
  }

  /** A force-new attribute is listed exactly when its value differs from prior. */
  lemma {:induction false} ListedIffChanged(prior: Value, proposed: Value, block: Schema.Block, name: string)
    requires prior.Object? && proposed.Object?
    ensures [Attribute(name)] in Replacements(prior, proposed, block) <==>
            exists a | a in block.attributes :: a.name == name && ForcesReplacement(prior.fields, proposed.fields, a)
    ensures forall p: Path | p in Replacements(prior, proposed, block) :: |p| == 1 && p[0].Attribute?
  {
    ListedAmong(prior, proposed, block.attributes, name);
  }

  lemma {:induction false} ListedAmong(
    prior: Value, proposed: Value, attributes: seq<Schema.AttributeSchema>, name: string)
    requires prior.Object? && proposed.Object?
    ensures [Attribute(name)] in ReplacingPaths(prior.fields, proposed.fields, attributes) <==>
            exists a | a in attributes :: a.name == name && ForcesReplacement(prior.fields, proposed.fields, a)
    ensures forall p: Path | p in ReplacingPaths(prior.fields, proposed.fields, attributes) ::
              |p| == 1 && p[0].Attribute?
  {
    if attributes != [] {
      var n := |attributes| - 1;
      ListedAmong(prior, proposed, attributes[..n], name);
      assert attributes == attributes[..n] + [attributes[n]];
    }
  }

  /** The mechanical list follows the order of the schema. */
  lemma {:induction false} ListedInOrder(
    prior: map<string, Value>, proposed: map<string, Value>, attributes: seq<Schema.AttributeSchema>, i: nat)
    requires i <= |attributes|
    ensures ReplacingPaths(prior, proposed, attributes[..i]) <= ReplacingPaths(prior, proposed, attributes)
  {
    var n := |attributes| - 1;
    if i <= n {
      ListedInOrder(prior, proposed, attributes[..n], i);
      assert attributes[..n][..i] == attributes[..i];
    } else {
      assert attributes[..i] == attributes;
    }
  }

  /** And the author's paths come after it in the order he gave them. */
  lemma {:induction false} ExtendedInOrder(replace: seq<Path>, paths: seq<Path>, i: nat)
    requires i <= |paths|
    ensures Extended(replace, paths[..i]) <= Extended(replace, paths)
  {
    var n := |paths| - 1;
    if i <= n {
      ExtendedInOrder(replace, paths[..n], i);
      assert paths[..n][..i] == paths[..i];
    } else {
      assert paths[..i] == paths;
    }
  }

  // --- framing ----------------------------------------------------------------

  predicate ApartFromAll(q: Path, paths: seq<Path>) { forall p | p in paths :: Apart(p, q) }

  lemma {:induction false} KeptFrames(v: Value, prior: Value, paths: seq<Path>, q: Path)
    requires ApartFromAll(q, paths)
    ensures GetAt(Kept(v, prior, paths), q) == GetAt(v, q)
  {
    if paths != [] {
      var n := |paths| - 1;
      KeptFrames(v, prior, paths[..n], q);
      if GetAt(prior, paths[n]).Some? {
        SetFrames(Kept(v, prior, paths[..n]), paths[n], GetAt(prior, paths[n]).value, q);
      }
    }
  }

  lemma {:induction false} ObscuredFrames(v: Value, paths: seq<Path>, q: Path)
    requires ApartFromAll(q, paths)
    ensures GetAt(Obscured(v, paths), q) == GetAt(v, q)
  {
    if paths != [] {
      var n := |paths| - 1;
      ObscuredFrames(v, paths[..n], q);
      SetFrames(Obscured(v, paths[..n]), paths[n], Unknown, q);
    }
  }

  /** A path apart from every targeted path reads what the mechanical plan had. */
  lemma {:induction false} ModifiedFrames(v: Value, mods: PlanModifications, prior: Value, q: Path)
    requires ApartFromAll(q, mods.keepPrior) && ApartFromAll(q, mods.unknown)
    ensures GetAt(Modified(v, mods, prior), q) == GetAt(v, q)
  {
    KeptFrames(v, prior, mods.keepPrior, q);
    ObscuredFrames(Kept(v, prior, mods.keepPrior), mods.unknown, q);
  }

  // --- unknown paths ----------------------------------------------------------

  /** The path reads unknown, or lies under something that does. */
  ghost predicate UnknownAt(v: Value, p: Path) { exists n: nat :: n <= |p| && GetAt(v, p[..n]) == Some(Unknown) }

  /** One more path marked unknown keeps an earlier one obscured. */
  lemma {:induction false} ObscureKeeps(v: Value, p: Path, q: Path)
    requires UnknownAt(v, p)
    ensures UnknownAt(SetAt(v, q, Unknown), p)
  {
    var n: nat :| n <= |p| && GetAt(v, p[..n]) == Some(Unknown);
    var r := p[..n];
    var w := SetAt(v, q, Unknown);
    if r < q { NothingBelowUnknown(v, r, q); }
    if GetAt(v, q).None? {
      SetUnresolved(v, q, Unknown);
    } else if q <= r {
      assert q == p[..|q|];
      GetAfterSet(v, q, Unknown);
      assert GetAt(w, p[..|q|]) == Some(Unknown);
    } else {
      SetFrames(v, q, Unknown, r);
      assert GetAt(w, p[..n]) == Some(Unknown);
    }
  }

  lemma {:induction false} NothingBelowUnknown(v: Value, r: Path, q: Path)
    requires r < q && GetAt(v, r) == Some(Unknown)
    ensures GetAt(v, q).None?
  {
    assert q == r + q[|r|..];
    GetAlong(v, r, q[|r|..]);
  }

  /** Every targeted path that resolves when the marking starts reads unknown at the
      end, or lies under a path that does. */
  lemma {:induction false} ObscuredReadsUnknown(v: Value, paths: seq<Path>, i: nat)
    requires i < |paths| && GetAt(v, paths[i]).Some?
    ensures UnknownAt(Obscured(v, paths), paths[i])
  {
    var n := |paths| - 1;
    var w := Obscured(v, paths[..n]);
    if i < n {
      ObscuredReadsUnknown(v, paths[..n], i);
      ObscureKeeps(w, paths[i], paths[n]);
    } else {
      ObscuredResolves(v, paths[..n], paths[n]);
      if GetAt(w, paths[n]).Some? {
        GetAfterSet(w, paths[n], Unknown);
        assert paths[n][..|paths[n]|] == paths[n];
      } else {
        SetUnresolved(w, paths[n], Unknown);
      }
    }
  }

  /** A path that resolved still resolves, unless it now lies under an unknown. */
  lemma {:induction false} ObscuredResolves(v: Value, paths: seq<Path>, p: Path)
    requires GetAt(v, p).Some?
    ensures GetAt(Obscured(v, paths), p).Some? || UnknownAt(Obscured(v, paths), p)
  {
    if paths != [] {
      var n := |paths| - 1;
      var w, q := Obscured(v, paths[..n]), paths[n];
      ObscuredResolves(v, paths[..n], p);
      if UnknownAt(w, p) {
        ObscureKeeps(w, p, q);
      } else if GetAt(w, q).None? {
        SetUnresolved(w, q, Unknown);
      } else if q <= p {
        GetAfterSet(w, q, Unknown);
        assert p[..|q|] == q;
      } else if p <= q {
        SetBelowResolves(w, q, Unknown, p);
      } else {
        SetFrames(w, q, Unknown, p);
      }
    }
  }

  lemma {:induction false} SetBelowResolves(v: Value, q: Path, leaf: Value, p: Path)
    requires p <= q && GetAt(v, q).Some?
    ensures GetAt(SetAt(v, q, leaf), p).Some?
  {
    GetAfterSet(v, q, leaf);
    assert q == p + q[|p|..];
    GetAlong(SetAt(v, q, leaf), p, q[|p|..]);
  }

  /** After the modifications each unknown path that the kept plan resolves reads
      unknown or lies under one that does. */
  lemma {:induction false} ModifiedReadsUnknown(v: Value, mods: PlanModifications, prior: Value, i: nat)
    requires i < |mods.unknown| && GetAt(Kept(v, prior, mods.keepPrior), mods.unknown[i]).Some?
    ensures UnknownAt(Modified(v, mods, prior), mods.unknown[i])
  {
    ObscuredReadsUnknown(Kept(v, prior, mods.keepPrior), mods.unknown, i);
  }

  /** A single kept path that both sides resolve reads its prior value. */
  lemma {:induction false} KeptReadsPrior(v: Value, prior: Value, paths: seq<Path>, i: nat)
    requires i < |paths| && GetAt(v, paths[i]).Some? && GetAt(prior, paths[i]).Some?
    requires forall j | 0 <= j < |paths| && j != i :: Apart(paths[j], paths[i])
    ensures GetAt(Kept(v, prior, paths), paths[i]) == GetAt(prior, paths[i])
  {
    var n := |paths| - 1;
    var w := Kept(v, prior, paths[..n]);
    if i == n {
      KeptFrames(v, prior, paths[..n], paths[n]);
      GetAfterSet(w, paths[n], GetAt(prior, paths[n]).value);
    } else {
      KeptReadsPrior(v, prior, paths[..n], i);
      if GetAt(prior, paths[n]).Some? { SetFrames(w, paths[n], GetAt(prior, paths[n]).value, paths[i]); }
    }
  }
}
