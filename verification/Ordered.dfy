/** Ordered traversal of finite sets of addresses, as std::map and std::set iterators do it. */
module Ordered {

  lemma {:induction false} LeastElement(s: set<nat>) returns (m: nat)
    requires s != {}
    ensures m in s && forall x | x in s :: m <= x
  {
    m :| m in s;
    var rest := s - {m};
    if rest != {} {
      var n := LeastElement(rest);
      if n < m {
        m := n;
      }
    }
    assert forall x | x in s :: x in rest || m <= x;
  }

  /** The key an iterator at the beginning of s points to. */
  function Min(s: set<nat>): (m: nat)
    requires s != {}
    ensures m in s && forall x | x in s :: m <= x
  {
    assert exists m :: m in s && forall x | x in s :: m <= x by {
      var m := LeastElement(s);
    }
    var m :| m in s && forall x | x in s :: m <= x;
    m
  }

  lemma {:induction false} GreatestElement(s: set<nat>) returns (m: nat)
    requires s != {}
    ensures m in s && forall x | x in s :: x <= m
  {
    m :| m in s;
    var rest := s - {m};
    if rest != {} {
      var n := GreatestElement(rest);
      if m < n {
        m := n;
      }
    }
    assert forall x | x in s :: x in rest || x <= m;
  }

  function Max(s: set<nat>): (m: nat)
    requires s != {}
    ensures m in s && forall x | x in s :: x <= m
  {
    assert exists m :: m in s && forall x | x in s :: x <= m by {
      var m := GreatestElement(s);
    }
    var m :| m in s && forall x | x in s :: x <= m;
    m
  }
}
