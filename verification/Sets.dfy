module Sets {

  ghost function Elements<T>(s: seq<T>): set<T> {
    set x | x in s
  }

  /** A subset is smaller unless it is the whole. */
  lemma {:induction false} SubsetSize<T>(a: set<T>, b: set<T>)
    requires a <= b
    ensures |a| <= |b| && (a != b ==> |a| < |b|)
  {
    if a != {} {
      var x :| x in a;
      SubsetSize(a - {x}, b - {x});
    }
  }

  /** A smaller subset lacks an element. */
  lemma SubsetLacks<T>(a: set<T>, b: set<T>)
    requires a <= b && |a| < |b|
    ensures exists x :: x in b && x !in a
  {
    if forall x :: x in b ==> x in a {
      SubsetSize(b, a);
    }
  }

  /** If a set grows by an element of `all`, fewer elements of `all` are left. */
  lemma FewerLeft<T>(all: set<T>, a: set<T>, b: set<T>, x: T)
    requires a <= b && x in all && x !in a && x in b
    ensures |all - b| < |all - a|
  {
    assert x in all - a && x !in all - b;
    SubsetSize(all - b, all - a);
  }

  lemma UnionSize<T>(a: set<T>, b: set<T>)
    requires a !! b
    ensures |a + b| == |a| + |b|
  {
  }

  lemma Prefix<T>(s: seq<T>, i: nat)
    requires i < |s|
    ensures s[..i + 1] == s[..i] + [s[i]]
  {
  }

  lemma Suffix<T>(s: seq<T>, longer: seq<T>, n: nat)
    requires n <= |s| && s <= longer
    ensures longer[n..] == s[n..] + longer[|s|..]
  {
  }
}
