/** Maps of a finite set into itself: what has a left inverse has it on the right as well. */
module FiniteMaps {
  import opened Arith

  ghost predicate Into<T(!new)>(dom: set<T>, f: T -> T) {
    forall x | x in dom :: f(x) in dom
  }

  /** g undoes f on the set. */
  ghost predicate Undoes<T(!new)>(dom: set<T>, g: T -> T, f: T -> T) {
    forall x | x in dom :: g(f(x)) == x
  }

  lemma {:induction false} ImageSize<T(!new)>(part: set<T>, f: T -> T, g: T -> T)
    requires Undoes(part, g, f)
    ensures |set x | x in part :: f(x)| == |part|
    decreases |part|
  {
    if part != {} {
      var y :| y in part;
      var rest := part - {y};
      ImageSize(rest, f, g);
      assert forall x | x in rest :: f(x) != f(y) by {
        assert g(f(y)) == y;
      }
      assert (set x | x in part :: f(x)) == (set x | x in rest :: f(x)) + {f(y)};
    }
  }

  lemma {:induction false} SameSize<T>(part: set<T>, dom: set<T>)
    requires part <= dom && |part| == |dom|
    ensures part == dom
    decreases |dom|
  {
    if y :| y in dom && y !in part {
      assert part <= dom - {y};
      SubsetSize(part, dom - {y});
    }
  }

  lemma {:induction false} SubsetSize<T>(part: set<T>, dom: set<T>)
    requires part <= dom
    ensures |part| <= |dom|
    decreases |part|
  {
    if part != {} {
      var y :| y in part;
      SubsetSize(part - {y}, dom - {y});
    }
  }

  /** A map of a finite set into itself that can be undone also undoes what undoes it. */
  lemma LeftIsRight<T(!new)>(dom: set<T>, f: T -> T, g: T -> T)
    requires Into(dom, f) && Undoes(dom, g, f)
    ensures Undoes(dom, f, g)
  {
    var image := set x | x in dom :: f(x);
    ImageSize(dom, f, g);
    SameSize(image, dom);
    forall y | y in dom
      ensures f(g(y)) == y
    {
      assert y in image;
    }
  }

  function BytesBelow(n: nat): (bytes: set<byte>)
    requires n <= 256
    ensures forall b: byte :: b in bytes <==> b < n
  {
    if n == 0 then {} else BytesBelow(n - 1) + {n - 1}
  }

  /** All byte strings of length n. */
  ghost function Strings(n: nat): set<seq<byte>> {
    if n == 0 then {[]} else set b, t | b in BytesBelow(256) && t in Strings(n - 1) :: [b] + t
  }

  lemma {:induction false} EveryString(s: seq<byte>, n: nat)
    ensures s in Strings(n) <==> |s| == n
    decreases n
  {
    if n > 0 && |s| > 0 {
      EveryString(s[1..], n - 1);
      assert s == [s[0]] + s[1..];
      if s in Strings(n) {
        var b, t :| b in BytesBelow(256) && t in Strings(n - 1) && s == [b] + t;
        assert t == s[1..];
      }
    }
  }
}
