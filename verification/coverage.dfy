/** What a pass that drops and synthesizes findings may do to paths and levels. */
module Coverage {
  import opened Text
  import opened Findings

  ghost predicate Represented(f: Finding, outs: seq<Finding>, levels: bool) {
    exists g {:trigger Covers(g, f, levels)} :: g in outs && Covers(g, f, levels)
  }

  /** Every finding of `ins` is stood for by one of `outs`. */
  ghost predicate Covered(ins: seq<Finding>, outs: seq<Finding>, levels: bool) {
    forall f :: f in ins ==> Represented(f, outs, levels)
  }

  ghost predicate Carried(ins: seq<Finding>, p: Str) {
    exists f :: f in ins && p in f.paths
  }

  ghost predicate Reached(ins: seq<Finding>, level: Level) {
    exists f :: f in ins && level.Rank() <= f.level.Rank()
  }

  /** Every path of `g` and a level at least its own come from `ins`. */
  ghost predicate Accounted(ins: seq<Finding>, g: Finding) {
    Reached(ins, g.level) && forall p :: p in g.paths ==> Carried(ins, p)
  }

  /** No path and no level appears in `outs` that `ins` does not account for. */
  ghost predicate NothingInvented(ins: seq<Finding>, outs: seq<Finding>) {
    forall g :: g in outs ==> Accounted(ins, g)
  }

  lemma CoveredTransitive(a: seq<Finding>, b: seq<Finding>, c: seq<Finding>, levels: bool)
    requires Covered(a, b, levels) && Covered(b, c, levels)
    ensures Covered(a, c, levels)
  {
    forall f | f in a ensures Represented(f, c, levels) {
      assert Represented(f, b, levels);
      var g :| g in b && Covers(g, f, levels);
      assert Represented(g, c, levels);
      var h :| h in c && Covers(h, g, levels);
      assert Covers(h, f, levels);
    }
  }

  lemma NothingInventedTransitive(a: seq<Finding>, b: seq<Finding>, c: seq<Finding>)
    requires NothingInvented(a, b) && NothingInvented(b, c)
    ensures NothingInvented(a, c)
  {
    forall h | h in c ensures Accounted(a, h) {
      assert Accounted(b, h);
      var g :| g in b && h.level.Rank() <= g.level.Rank();
      assert Accounted(a, g);
      forall p | p in h.paths ensures Carried(a, p) {
        assert Carried(b, p);
        var g' :| g' in b && p in g'.paths;
        assert Accounted(a, g');
      }
    }
  }

  lemma CoveredRefl(fs: seq<Finding>, levels: bool)
    ensures Covered(fs, fs, levels) && NothingInvented(fs, fs)
  {
    forall f | f in fs ensures Represented(f, fs, levels) {
      assert Covers(f, f, levels);
    }
    forall g | g in fs ensures Accounted(fs, g) {
    }
  }

  /** Keeping some and standing for the others covers all. */
  lemma SplitCovers(fs: seq<Finding>, kept: seq<Finding>, dropped: seq<Finding>, s: Finding, levels: bool)
    requires forall f :: f in fs ==> f in kept || f in dropped
    requires forall f :: f in dropped ==> Covers(s, f, levels)
    ensures Covered(fs, kept + [s], levels)
  {
    var out := kept + [s];
    assert out[|kept|] == s;
    forall f | f in fs ensures Represented(f, out, levels) {
      if f in kept {
        assert f in out && Covers(f, f, levels);
      } else {
        assert s in out && Covers(s, f, levels);
      }
    }
  }

  lemma RepresentedInMore(f: Finding, part: seq<Finding>, out: seq<Finding>, levels: bool)
    requires Represented(f, part, levels) && forall g :: g in part ==> g in out
    ensures Represented(f, out, levels)
  {
    var g :| g in part && Covers(g, f, levels);
    assert g in out;
  }
}
