/** The interval index: at every left end it keeps the objects present there. */
module Overlaps {
  import opened ListSets

  type Interval = (real, real)

  /** Half-open intervals: closed on the left, open on the right. */
  predicate PresentAt(i: Interval, x: real) {
    i.0 <= x < i.1
  }

  const LESS: (real, real) -> bool := (a, b) => a < b

  lemma LessIsOrder()
    ensures StrictTotalOrder(LESS)
  {
  }

  class Overlap1D<T(!new, ==)> {
    var markers: seq<real>
    var present: map<real, set<T>>
    var rightend: map<real, set<T>>
    var objects: map<T, Interval>

    /** The markers are the left ends, in order; each knows exactly the objects present there. */
    ghost predicate Valid()
      reads this
    {
      && Ascending(LESS, markers)
      && (forall x :: x in present <==> x in markers)
      && (forall o :: o in objects ==> objects[o].0 < objects[o].1 && objects[o].0 in present)
      && (forall x, o :: x in present ==> (o in present[x] <==> o in objects && PresentAt(objects[o], x)))
    }

    constructor ()
      ensures Valid() && objects == map[]
    {
      markers, present, rightend, objects := [], map[], map[], map[];
    }

    /** The position of the first marker not below x. */
    method Position(x: real) returns (p: nat)
      requires Ascending(LESS, markers)
      ensures p <= |markers|
      ensures forall i :: 0 <= i < p ==> markers[i] < x
      ensures forall i :: p <= i < |markers| ==> markers[i] >= x
    {
      LessIsOrder();
      p := BisectLeft(LESS, markers, x);
      assert forall i :: 0 <= i < p ==> LESS(markers[i], x);
      assert forall i :: p <= i < |markers| ==> !LESS(markers[i], x);
    }

    /** The same search, beginning at a. */
    method PositionFrom(x: real, a: nat) returns (p: nat)
      requires Ascending(LESS, markers) && a <= |markers| && forall i :: 0 <= i < a ==> markers[i] < x
      ensures a <= p <= |markers|
      ensures forall i :: 0 <= i < p ==> markers[i] < x
      ensures forall i :: p <= i < |markers| ==> markers[i] >= x
    {
      p := Position(x);
      assert p < |markers| ==> markers[p] >= x;
    }

    /** The same for all objects but one, which may be present at one place. */
    ghost predicate ValidButFor(obj: T, left: real)
      reads this
    {
      && Ascending(LESS, markers)
      && (forall x :: x in present <==> x in markers)
      && (forall o :: o in objects ==> objects[o].0 < objects[o].1 && objects[o].0 in present)
      && (forall x, o :: x in present && o != obj ==> (o in present[x] <==> o in objects && PresentAt(objects[o], x)))
      && (forall x :: x in present && obj in present[x] ==> x == left)
    }

    /** `self._present[left] = s`, for a new marker. */
    method AddMarker(left: real, s: set<T>, ghost obj: T)
      requires Valid() && left !in present && obj !in objects
      requires forall o :: o in s && o != obj <==> o in objects && PresentAt(objects[o], left)
      modifies this
      ensures ValidButFor(obj, left) && left in present && objects == old(objects) && rightend == old(rightend)
    {
      InsertMarker(left);
      present := present[left := s];
    }

    /** Inserts a new position in order. */
    method InsertMarker(left: real)
      requires Ascending(LESS, markers) && left !in markers
      modifies `markers
      ensures Ascending(LESS, markers) && forall x :: x in markers <==> x in old(markers) || x == left
    {
      var p := Position(left);
      assert p < |markers| ==> markers[p] in markers;
      InsertedAscends(markers, p, left);
      markers := markers[..p] + [left] + markers[p..];
    }

    /** The first half of `add`: sees to it that there is a marker at the left end. */
    method MarkLeft(obj: T, left: real)
      requires Valid() && obj !in objects
      modifies this
      ensures ValidButFor(obj, left) && left in present && objects == old(objects) && rightend == old(rightend)
    {
      if left !in present {
        var p := Position(left);
        if p == 0 {
          forall o | o in objects
            ensures !PresentAt(objects[o], left)
          {
            var i :| 0 <= i < |markers| && markers[i] == objects[o].0;
          }
          AddMarker(left, {obj}, obj);
        } else {
          var prev := present[markers[p - 1]];
          BetweenMarkers(p, left);
          var s := set o | o in prev && objects[o].1 > left;
          AddMarker(left, s, obj);
        }
      }
    }

    /** Adds the object to the sets of markers a to b - 1. */
    method SpreadRange(obj: T, a: nat, b: nat)
      requires a <= b <= |markers| && Ascending(LESS, markers) && forall k :: 0 <= k < |markers| ==> markers[k] in present
      modifies `present
      ensures present.Keys == old(present.Keys)
      ensures forall k :: 0 <= k < |markers| ==>
                present[markers[k]] == (if a <= k < b then old(present)[markers[k]] + {obj} else old(present)[markers[k]])
    {
      for i := a to b
        invariant present.Keys == old(present.Keys)
        invariant forall k :: 0 <= k < |markers| ==>
                    present[markers[k]] == (if a <= k < i then old(present)[markers[k]] + {obj} else old(present)[markers[k]])
      {
        var x := markers[i];
        assert forall k :: 0 <= k < |markers| && k != i ==> LESS(markers[k], x) || LESS(x, markers[k]);
        present := present[x := present[x] + {obj}];
      }
    }

    /** Adds the object to the sets of all markers inside its interval. */
    method Spread(obj: T, left: real, right: real)
      requires left < right && Ascending(LESS, markers) && forall x :: x in present <==> x in markers
      modifies `present
      ensures present.Keys == old(present.Keys)
      ensures forall x :: x in present ==> present[x] == if left <= x < right then old(present)[x] + {obj} else old(present)[x]
    {
      var a := Position(left);
      var b := PositionFrom(right, a);
      assert forall k :: 0 <= k < |markers| ==> markers[k] in markers;
      ghost var was := present;
      SpreadRange(obj, a, b);
      forall x | x in present
        ensures present[x] == if left <= x < right then was[x] + {obj} else was[x]
      {
        assert x in was;
        var k :| 0 <= k < |markers| && markers[k] == x;
      }
    }

    /** The second half of `add`. */
    method Record(obj: T, left: real, right: real)
      requires ValidButFor(obj, left) && obj !in objects && left < right && left in present
      modifies this
      ensures Valid() && objects == old(objects)[obj := (left, right)]
    {
      ghost var was := present;
      Spread(obj, left, right);
      forall x, o | x in present
        ensures o in present[x] <==> o in objects[obj := (left, right)] && PresentAt(objects[obj := (left, right)][o], x)
      {
        assert x in was && (o != obj ==> (o in present[x] <==> o in was[x]));
      }
      objects := objects[obj := (left, right)];
      if right !in rightend {
        rightend := rightend[right := {}];
      }
      rightend := rightend[right := rightend[right] + {obj}];
    }

    /** `add`, for a new object and a non-empty interval. */
    method Add(obj: T, left: real, right: real)
      requires Valid() && obj !in objects && left < right
      modifies this
      ensures Valid() && objects == old(objects)[obj := (left, right)]
    {
      MarkLeft(obj, left);
      Record(obj, left, right);
    }

    /** `overlaps`, not closed: all objects at the markers inside, and those that reach in from the
        marker to the left. */
    method Query(left: real, right: real) returns (outset: set<T>)
      requires Valid() && left < right
      ensures forall o :: o in outset <==> o in objects && objects[o].0 < right && left < objects[o].1
    {
      var a := Position(left);
      var b := PositionFrom(right, a);
      outset := {};
      for i := a to b
        invariant forall o :: o in outset <==> exists k :: a <= k < i && o in present[markers[k]]
      {
        outset := outset + present[markers[i]];
      }
      if left !in present && markers != [] && left > markers[0] {
        assert LESS(markers[0], left);
        var prev := present[markers[a - 1]];
        BetweenMarkers(a, left);
        outset := outset + set o | o in prev && objects[o].1 > left;
      }
      AllFound(left, right, a, b);
    }

    lemma AllFound(left: real, right: real, a: nat, b: nat)
      requires Valid() && left < right && a <= b <= |markers|
      requires forall i :: 0 <= i < a ==> markers[i] < left
      requires forall i :: a <= i < |markers| ==> markers[i] >= left
      requires forall i :: 0 <= i < b ==> markers[i] < right
      requires forall i :: b <= i < |markers| ==> markers[i] >= right
      ensures forall o :: o in objects && objects[o].0 < right && left < objects[o].1 <==>
              (exists k :: a <= k < b && markers[k] in present && o in present[markers[k]])
              || (left !in present && markers != [] && left > markers[0] && o in objects && PresentAt(objects[o], left))
    {
      forall o
        ensures o in objects && objects[o].0 < right && left < objects[o].1 <==>
              (exists k :: a <= k < b && markers[k] in present && o in present[markers[k]])
              || (left !in present && markers != [] && left > markers[0] && o in objects && PresentAt(objects[o], left))
      {
        Found(o, left, right, a, b);
      }
    }

    /** An object overlaps the interval exactly when it is present at a marker inside or at its left
        end. */
    lemma Found(o: T, left: real, right: real, a: nat, b: nat)
      requires Valid() && left < right && a <= b <= |markers|
      requires forall i :: 0 <= i < a ==> markers[i] < left
      requires forall i :: a <= i < |markers| ==> markers[i] >= left
      requires forall i :: 0 <= i < b ==> markers[i] < right
      requires forall i :: b <= i < |markers| ==> markers[i] >= right
      ensures o in objects && objects[o].0 < right && left < objects[o].1 <==>
              (exists k :: a <= k < b && markers[k] in present && o in present[markers[k]])
              || (left !in present && markers != [] && left > markers[0] && o in objects && PresentAt(objects[o], left))
    {
      if o in objects && objects[o].0 < right && left < objects[o].1 {
        var k :| 0 <= k < |markers| && markers[k] == objects[o].0;
        if k >= a {
          assert o in present[markers[k]];
        } else if left in present {
          var m :| 0 <= m < |markers| && markers[m] == left;
          assert o in present[markers[m]];
        } else {
          assert k == 0 || LESS(markers[0], markers[k]);
        }
      }
    }

    /** Between two markers nothing begins. */
    lemma BetweenMarkers(p: nat, left: real)
      requires Valid() && 0 < p <= |markers| && left !in present
      requires (forall i :: 0 <= i < p ==> markers[i] < left) && (forall i :: p <= i < |markers| ==> markers[i] >= left)
      ensures markers[p - 1] in present
      ensures forall o :: o in present[markers[p - 1]] && objects[o].1 > left <==> o in objects && PresentAt(objects[o], left)
    {
      forall o | o in objects && PresentAt(objects[o], left)
        ensures o in present[markers[p - 1]]
      {
        var i :| 0 <= i < |markers| && markers[i] == objects[o].0;
        assert i <= p - 1;
        assert i == p - 1 || LESS(markers[i], markers[p - 1]);
      }
    }
  }

  lemma InsertedAscends(s: seq<real>, p: nat, x: real)
    requires Ascending(LESS, s) && p <= |s| && (forall i :: 0 <= i < p ==> s[i] < x) && (forall i :: p <= i < |s| ==> s[i] >= x) && x !in s
    ensures Ascending(LESS, s[..p] + [x] + s[p..])
    ensures forall y :: y in s[..p] + [x] + s[p..] <==> y in s || y == x
  {
    var t := s[..p] + [x] + s[p..];
    forall i, j | 0 <= i < j < |t|
      ensures LESS(t[i], t[j])
    {
      assert i < j < p ==> LESS(s[i], s[j]);
      assert p < i ==> LESS(s[i - 1], s[j - 1]);
      assert i < p < j ==> LESS(s[i], s[j - 1]);
    }
    assert s == s[..p] + s[p..];
  }
}
