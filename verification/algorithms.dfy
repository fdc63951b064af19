/** The dependency algebra over a relvar's attribute sets: attribute-set closure under functional
    dependencies, and the superkey and key tests built on it. The dependency collections are
    sequences; the lemmas below show that only which dependencies occur matters, not their order
    or repetition. */
module Algorithms {
  import opened Components

  /** Every attribute that some dependency of fds names as dependant. */
  function AllDependants(fds: seq<Dependency>): set<Attribute>
  {
    set d, a | d in fds && a in d.dependant :: a
  }

  /** The dependants of every dependency whose determinant lies inside c. */
  function Implied(c: set<Attribute>, fds: seq<Dependency>): (r: set<Attribute>)
    ensures r <= AllDependants(fds)
  {
    set d, a | d in fds && d.determinant <= c && a in d.dependant :: a
  }

  /** c is closed under fds: a dependency whose determinant lies in c has its dependant in c. */
  predicate Closed(c: set<Attribute>, fds: seq<Dependency>)
  {
    forall d :: d in fds && d.determinant <= c ==> d.dependant <= c
  }

  /** The closure of s under fds, reached by adding implied attributes until nothing changes.
      It contains s, adds nothing that no dependency names, and is closed. */
  function Closure(s: set<Attribute>, fds: seq<Dependency>): (r: set<Attribute>)
    ensures s <= r <= s + AllDependants(fds)
    ensures Closed(r, fds)
    decreases AllDependants(fds) - s
  {
    var next := s + Implied(s, fds);
    if next == s then s
    else
      assert AllDependants(fds) - next < AllDependants(fds) - s by {
        var x :| x in next && x !in s;
        assert x in AllDependants(fds) - s && x !in AllDependants(fds) - next;
      }
      Closure(next, fds)
  }

  /** The closure is the least closed superset: every closed superset of s contains it. */
  lemma {:induction false} ClosureLeast(s: set<Attribute>, fds: seq<Dependency>, c: set<Attribute>)
    requires s <= c && Closed(c, fds)
    ensures Closure(s, fds) <= c
    decreases AllDependants(fds) - s
  {
    var next := s + Implied(s, fds);
    if next != s {
      assert Implied(s, fds) <= c;
      var x :| x in next && x !in s;
      assert x in AllDependants(fds) - s && x !in AllDependants(fds) - next;
      ClosureLeast(next, fds, c);
    }
  }

  /** Closure is monotone in the attribute set. */
  lemma ClosureMonotone(s: set<Attribute>, t: set<Attribute>, fds: seq<Dependency>)
    requires s <= t
    ensures Closure(s, fds) <= Closure(t, fds)
  {
    ClosureLeast(s, fds, Closure(t, fds));
  }

  /** Closure is idempotent: the closure of a closure is itself. */
  lemma ClosureIdempotent(s: set<Attribute>, fds: seq<Dependency>)
    ensures Closure(Closure(s, fds), fds) == Closure(s, fds)
  {
    ClosureLeast(Closure(s, fds), fds, Closure(s, fds));
  }

  /** The closure depends only on which dependencies occur, so neither their order nor a repeated
      dependency changes it. */
  lemma ClosureOrderIndependent(s: set<Attribute>, fds: seq<Dependency>, others: seq<Dependency>)
    requires forall d :: d in fds <==> d in others
    ensures Closure(s, fds) == Closure(s, others)
  {
    ClosureLeast(s, fds, Closure(s, others));
    ClosureLeast(s, others, Closure(s, fds));
  }

  /** When every dependency lies within a heading, the closure of a subset of the heading stays
      inside the heading. */
  lemma ClosureWithinHeading(s: set<Attribute>, heading: set<Attribute>, fds: seq<Dependency>)
    requires s <= heading
    requires forall d :: d in fds ==> WithinHeading(d, heading)
    ensures Closure(s, fds) <= heading
  {
    assert Closed(heading, fds);
    ClosureLeast(s, fds, heading);
  }

  /** A valid relvar keeps the closure of part of its heading inside the heading: the class
      invariant is what the algebra needs. */
  lemma RelvarClosureWithinHeading(relvar: Relvar, s: set<Attribute>)
    requires relvar.Valid() && s <= relvar.heading
    ensures Closure(s, relvar.functionalDependencies) <= relvar.heading
  {
    ClosureWithinHeading(s, relvar.heading, relvar.functionalDependencies);
  }

  /** Applying a dependency whose determinant is already inside the closure adds nothing outside it. */
  lemma FireWithinClosure(c: set<Attribute>, fd: Dependency, s: set<Attribute>, fds: seq<Dependency>)
    requires c <= Closure(s, fds) && fd in fds && fd.determinant <= c
    ensures c + fd.dependant <= Closure(s, fds)
  {
    var r := Closure(s, fds);
    assert Closed(r, fds);
    assert fd.determinant <= r;
  }

  /** The dependencies fds[..i] are all respected by c. */
  predicate ClosedUpTo(c: set<Attribute>, fds: seq<Dependency>, i: int)
    requires 0 <= i <= |fds|
  {
    forall j :: 0 <= j < i && fds[j].determinant <= c ==> fds[j].dependant <= c
  }

  /** Respecting one more dependency extends the respected prefix by one. */
  lemma ClosedUpToStep(c: set<Attribute>, fds: seq<Dependency>, i: int)
    requires 0 <= i < |fds| && ClosedUpTo(c, fds, i)
    requires fds[i].determinant <= c ==> fds[i].dependant <= c
    ensures ClosedUpTo(c, fds, i + 1)
  {
  }

  /** A sweep that respects every dependency leaves a closed set. */
  lemma SweepClosed(c: set<Attribute>, fds: seq<Dependency>)
    requires ClosedUpTo(c, fds, |fds|)
    ensures Closed(c, fds)
  {
    forall d | d in fds && d.determinant <= c ensures d.dependant <= c {
      var j :| 0 <= j < |fds| && fds[j] == d;
    }
  }

  /** A sweep that added dependants leaves fewer dependants still to add. */
  lemma SweepGrows(before: set<Attribute>, after: set<Attribute>, fds: seq<Dependency>)
    requires before <= after && after != before && after - before <= AllDependants(fds)
    ensures AllDependants(fds) - after < AllDependants(fds) - before
  {
    var x :| x in after && x !in before;
    assert x in AllDependants(fds) - before && x !in AllDependants(fds) - after;
  }

  /** `closure`: start from a copy of the attributes and sweep over the dependencies, adding the
      dependant of every dependency whose determinant is already covered, until a whole sweep adds
      nothing. */
  method ComputeClosure(attributes: set<Attribute>, fds: seq<Dependency>) returns (closureSet: set<Attribute>)
    ensures closureSet == Closure(attributes, fds)
  {
    closureSet := attributes;
    var changed := true;
    while changed
      invariant attributes <= closureSet <= Closure(attributes, fds)
      invariant !changed ==> Closed(closureSet, fds)
      decreases AllDependants(fds) - closureSet, changed
    {
      changed := false;
      ghost var before := closureSet;
      for i := 0 to |fds|
        invariant before <= closureSet <= Closure(attributes, fds)
        invariant closureSet - before <= AllDependants(fds)
        invariant changed <==> closureSet != before
        invariant !changed ==> ClosedUpTo(closureSet, fds, i)
      {
        var fd := fds[i];
        if fd.determinant <= closureSet {
          var newAttributes := fd.dependant - closureSet;
          if newAttributes != {} {
            FireWithinClosure(closureSet, fd, attributes, fds);
            assert fd.dependant <= AllDependants(fds);
            closureSet := closureSet + newAttributes;
            changed := true;
          } else {
            forall a | a in fd.dependant ensures a in closureSet {
              assert a !in newAttributes;
            }
          }
        }
        if !changed {
          ClosedUpToStep(closureSet, fds, i);
        }
      }
      if changed {
        SweepGrows(before, closureSet, fds);
      } else {
        SweepClosed(closureSet, fds);
      }
    }
    ClosureLeast(attributes, fds, closureSet);
  }

  /** heading is the least superset of attributes that is closed under fds. */
  ghost predicate IsLeastClosedSuperset(heading: set<Attribute>, attributes: set<Attribute>, fds: seq<Dependency>)
  {
    attributes <= heading && Closed(heading, fds) &&
    forall c :: attributes <= c && Closed(c, fds) ==> heading <= c
  }

  /** `is_superkey`: the closure of the attributes is exactly the heading (equality, not inclusion).
      Equivalently, the heading is the least closed superset of the attributes. */
  function IsSuperkey(attributes: set<Attribute>, heading: set<Attribute>, fds: seq<Dependency>): (r: bool)
    ensures r <==> IsLeastClosedSuperset(heading, attributes, fds)
  {
    assert forall c :: attributes <= c && Closed(c, fds) ==> Closure(attributes, fds) <= c by {
      forall c | attributes <= c && Closed(c, fds) ensures Closure(attributes, fds) <= c {
        ClosureLeast(attributes, fds, c);
      }
    }
    Closure(attributes, fds) == heading
  }

  /** A superkey no proper subset of which is a superkey. */
  ghost predicate IsMinimalSuperkey(attributes: set<Attribute>, heading: set<Attribute>, fds: seq<Dependency>)
  {
    IsSuperkey(attributes, heading, fds) &&
    forall sub :: sub < attributes ==> !IsSuperkey(sub, heading, fds)
  }

  /** Removing one attribute at a time is enough to test minimality: if some proper subset were a
      superkey, so would be the whole set minus an attribute missing from that subset. */
  lemma SingleRemovalSuffices(attributes: set<Attribute>, heading: set<Attribute>, fds: seq<Dependency>)
    ensures IsMinimalSuperkey(attributes, heading, fds)
            <==> IsSuperkey(attributes, heading, fds)
                 && forall a :: a in attributes ==> !IsSuperkey(attributes - {a}, heading, fds)
  {
    if IsSuperkey(attributes, heading, fds)
       && forall a :: a in attributes ==> !IsSuperkey(attributes - {a}, heading, fds)
    {
      forall sub | sub < attributes ensures !IsSuperkey(sub, heading, fds) {
        var a :| a in attributes && a !in sub;
        ClosureMonotone(sub, attributes - {a}, fds);
        ClosureMonotone(attributes - {a}, attributes, fds);
        assert !IsSuperkey(attributes - {a}, heading, fds);
      }
    }
    if IsMinimalSuperkey(attributes, heading, fds) {
      forall a | a in attributes ensures !IsSuperkey(attributes - {a}, heading, fds) {
        assert attributes - {a} < attributes;
      }
    }
  }

  /** `is_key`: a superkey from which no single attribute can be removed, each removal tested
      against the original set. The empty set is a key exactly when it is a superkey. This
      single-removal test decides full minimality. */
  method IsKey(attributes: set<Attribute>, heading: set<Attribute>, fds: seq<Dependency>) returns (key: bool)
    ensures key <==> IsSuperkey(attributes, heading, fds)
                     && forall a :: a in attributes ==> !IsSuperkey(attributes - {a}, heading, fds)
    ensures key <==> IsMinimalSuperkey(attributes, heading, fds)
  {
    var superkey := IsSuperkey(attributes, heading, fds);
    var reduced := true;
    var pending := attributes;
    while pending != {}
      invariant pending <= attributes
      invariant reduced <==> forall a :: a in attributes - pending ==> !IsSuperkey(attributes - {a}, heading, fds)
      decreases pending
    {
      var attr :| attr in pending;
      var subset := attributes - {attr};
      if IsSuperkey(subset, heading, fds) {
        reduced := false;
      }
      pending := pending - {attr};
    }
    key := superkey && reduced;
    SingleRemovalSuffices(attributes, heading, fds);
  }
}
