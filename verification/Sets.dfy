/** Choosing and ordering elements of finite sets. */
module Sets {

  /** Some element of a non-empty set. */
  ghost function Pick<T(!new)>(s: set<T>): (x: T)
    requires s != {}
    ensures x in s
  {
    var x :| x in s;
    x
  }

  lemma {:induction false} LeastOf(s: set<int>) returns (m: int)
    requires s != {}
    ensures m in s && forall k :: k in s ==> m <= k
    decreases s
  {
    var n := Pick(s);
    var t := s - {n};
    m := n;
    if t != {} {
      var l := LeastOf(t);
      m := if l < n then l else n;
    }
    forall k | k in s
      ensures m <= k
    {
      assert k == n || k in t;
    }
  }

  lemma LeastExists(s: set<int>)
    requires s != {}
    ensures exists n :: n in s && forall k :: k in s ==> n <= k
  {
    var m := LeastOf(s);
  }

  /** The least element of a set of integers. */
  function Least(s: set<int>): (n: int)
    requires s != {}
    ensures n in s && forall k :: k in s ==> n <= k
  {
    LeastExists(s);
    var n :| n in s && forall k :: k in s ==> n <= k;
    n
  }
}
