/** Which of a set of watched directories need a registration of their own. */
module Watching {
  import opened Paths

  /** The watched directories with no watched proper ancestor. */
  ghost function Topmost(watched: set<Path>): set<Path> {
    set d | d in watched && (forall e :: e in watched && IsBelow(e, d) ==> e == d)
  }

  ghost predicate Antichain(dirs: set<Path>) {
    forall d, e :: d in dirs && e in dirs && IsBelow(d, e) ==> d == e
  }

  ghost predicate Covers(registered: set<Path>, watched: set<Path>) {
    forall d :: d in watched ==> Covered(registered, d)
  }

  ghost function WithoutBelow(registered: set<Path>, d: Path): set<Path> {
    set r | r in registered && !IsBelow(d, r)
  }

  /** The registrations once setup_overlaps ran for d and d was registered unless covered. */
  ghost function AfterAdding(registered: set<Path>, d: Path): set<Path> {
    WithoutBelow(registered, d) + if Covered(registered, d) then {} else {d}
  }

  lemma {:induction false} TopmostAbove(watched: set<Path>, d: Path) returns (top: Path)
    requires d in watched
    ensures top in Topmost(watched) && IsBelow(top, d)
    decreases |d|
  {
    if e :| e in watched && IsBelow(e, d) && e != d {
      top := TopmostAbove(watched, e);
      PrefixIsTransitive(top, e, d);
    } else {
      top := d;
    }
  }

  /** An antichain of watched directories that covers them all can only be the topmost ones. */
  lemma CoveringAntichainIsTopmost(registered: set<Path>, watched: set<Path>)
    requires registered <= watched && Antichain(registered) && Covers(registered, watched)
    ensures registered == Topmost(watched)
  {
    forall d | d in watched
      ensures d in registered <==> d in Topmost(watched)
    {
      var r :| r in registered && IsBelow(r, d);
      if d in registered {
        forall e | e in watched && IsBelow(e, d)
          ensures e == d
        {
          var s :| s in registered && IsBelow(s, e);
          PrefixIsTransitive(s, e, d);
          assert s == d;
        }
      }
    }
  }

  lemma TopmostIsCoveringAntichain(watched: set<Path>)
    ensures Antichain(Topmost(watched)) && Covers(Topmost(watched), watched)
  {
    forall d | d in watched
      ensures Covered(Topmost(watched), d)
    {
      var t := TopmostAbove(watched, d);
    }
  }

  /** Nothing is lost by keeping only the topmost directories. */
  lemma TopmostCoversTheSame(watched: set<Path>, key: Path)
    ensures Covered(watched, key) <==> Covered(Topmost(watched), key)
  {
    if d :| d in watched && IsBelow(d, key) {
      var t := TopmostAbove(watched, d);
      PrefixIsTransitive(t, d, key);
    }
  }

  /** When something registered includes d, nothing registered lies below d. */
  lemma NothingBelowCovered(registered: set<Path>, d: Path)
    requires Antichain(registered) && d !in registered && Covered(registered, d)
    ensures WithoutBelow(registered, d) == registered
  {
    var a :| a in registered && IsBelow(a, d);
    forall r | r in registered
      ensures !IsBelow(d, r)
    {
      if IsBelow(d, r) {
        PrefixIsTransitive(a, d, r);
        PrefixIsAntisymmetric(d, a);
      }
    }
  }

  /** One more directory, registered only if nothing above it is, and in place of what it includes. */
  lemma AddingKeepsCover(registered: set<Path>, watched: set<Path>, d: Path)
    requires Antichain(registered) && d !in registered
    ensures Antichain(AfterAdding(registered, d)) && Antichain(WithoutBelow(registered, d))
    ensures Covers(registered, watched) ==> Covers(AfterAdding(registered, d), watched + {d})
  {
    var registered' := AfterAdding(registered, d);
    if Covered(registered, d) {
      NothingBelowCovered(registered, d);
    } else if Covers(registered, watched) {
      forall w | w in watched + {d}
        ensures Covered(registered', w)
      {
        if w == d {
          assert d in registered' && IsBelow(d, w);
        } else {
          var r :| r in registered && IsBelow(r, w);
          if IsBelow(d, r) {
            PrefixIsTransitive(d, r, w);
            assert d in registered' && IsBelow(d, w);
          } else {
            assert r in registered' && IsBelow(r, w);
          }
        }
      }
    }
  }

  /** Watching one more directory and registering as setup_overlaps does keeps exactly the topmost. */
  lemma AddingToTopmost(watched: set<Path>, d: Path)
    ensures Antichain(Topmost(watched))
    ensures d !in watched ==> AfterAdding(Topmost(watched), d) == Topmost(watched + {d})
  {
    var registered := Topmost(watched);
    TopmostIsCoveringAntichain(watched);
    if d !in watched {
      AddingKeepsCover(registered, watched, d);
      CoveringAntichainIsTopmost(AfterAdding(registered, d), watched + {d});
    }
  }

  /** Dropping the registrations below d does no harm exactly when there are none. */
  lemma RefusedAddIsHarmless(registered: set<Path>, watched: set<Path>, d: Path)
    requires registered == Topmost(watched)
    ensures WithoutBelow(registered, d) == Topmost(watched)
            <==> forall r :: r in registered ==> !IsBelow(d, r)
  {
  }
}
