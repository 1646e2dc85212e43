/** Optional values and searches shared by the other modules. */
module Prelude {

  datatype Option<+T> = None | Some(value: T)

  function OrElse<T>(a: Option<T>, b: Option<T>): Option<T> {
    if a.Some? then a else b
  }

  /** The first element with a property. */
  function First<T>(s: seq<T>, p: T -> bool): (r: Option<T>)
    ensures r.None? <==> forall i | 0 <= i < |s| :: !p(s[i])
    ensures r.Some? ==> p(r.value)
  {
    if s == [] then None else if p(s[0]) then Some(s[0]) else First(s[1..], p)
  }

  /** A longer list only adds candidates behind the ones already there. */
  lemma {:induction false} FirstConcat<T>(s: seq<T>, t: seq<T>, p: T -> bool)
    ensures First(s + t, p) == OrElse(First(s, p), First(t, p))
  {
    if s == [] {
      assert s + t == t;
    } else {
      assert (s + t)[1..] == s[1..] + t;
      FirstConcat(s[1..], t, p);
    }
  }

  lemma {:induction false} FirstIn<T>(s: seq<T>, p: T -> bool) returns (i: nat)
    requires First(s, p).Some?
    ensures i < |s| && s[i] == First(s, p).value && forall j | 0 <= j < i :: !p(s[j])
  {
    if p(s[0]) { return 0; }
    i := FirstIn(s[1..], p);
    i := i + 1;
  }

  lemma FirstSnoc<T>(s: seq<T>, p: T -> bool)
    requires s != []
    ensures var n := |s| - 1;
            First(s, p) == OrElse(First(s[..n], p), if p(s[n]) then Some(s[n]) else None)
  {
    var n := |s| - 1;
    assert s == s[..n] + [s[n]];
    FirstConcat(s[..n], [s[n]], p);
  }

  /** The elements with a property, in order. */
  function Keep<T>(s: seq<T>, p: T -> bool): (r: seq<T>)
    ensures forall i | 0 <= i < |r| :: p(r[i])
  {
    if s == [] then [] else
      var n := |s| - 1;
      Keep(s[..n], p) + if p(s[n]) then [s[n]] else []
  }

  lemma KeepSnoc<T>(s: seq<T>, x: T, p: T -> bool)
    ensures Keep(s + [x], p) == if p(x) then Keep(s, p) + [x] else Keep(s, p)
  {
    assert (s + [x])[..|s|] == s;
  }

  lemma {:induction false} KeepSome<T>(s: seq<T>, p: T -> bool)
    ensures Keep(s, p) != [] <==> exists i | 0 <= i < |s| :: p(s[i])
  {
    if s != [] {
      var n := |s| - 1;
      KeepSome(s[..n], p);
      if Keep(s[..n], p) != [] {
        var i :| 0 <= i < n && p(s[..n][i]);
        assert p(s[i]);
      }
      if i :| 0 <= i < |s| && p(s[i]) {
        assert i < n ==> p(s[..n][i]);
      }
    }
  }

  function Image<T, U>(s: seq<T>, f: T -> U): (r: seq<U>)
    ensures |r| == |s| && forall i | 0 <= i < |s| :: r[i] == f(s[i])
  {
    seq(|s|, i requires 0 <= i < |s| => f(s[i]))
  }

  lemma ImageSnoc<T, U>(s: seq<T>, x: T, f: T -> U)
    ensures Image(s + [x], f) == Image(s, f) + [f(x)]
  {
  }

  lemma TwiceCount<T>(s: seq<T>, i: nat, j: nat)
    requires i < j < |s| && s[i] == s[j]
    ensures multiset(s)[s[i]] >= 2
  {
    assert s == s[..j] + s[j..];
    assert s[..j][i] == s[i] && s[j..][0] == s[i];
  }

  lemma SnocMultiset<T>(s: seq<T>)
    requires s != []
    ensures multiset(s) == multiset(s[..|s| - 1]) + multiset{s[|s| - 1]}
  {
    assert s == s[..|s| - 1] + [s[|s| - 1]];
  }

  lemma {:induction false} KeepCount<T>(s: seq<T>, p: T -> bool, x: T)
    ensures multiset(Keep(s, p))[x] == if p(x) then multiset(s)[x] else 0
  {
    if s != [] {
      KeepCount(s[..|s| - 1], p, x);
      SnocMultiset(s);
    }
  }

  lemma KeepMultiset<T>(s: seq<T>, t: seq<T>, p: T -> bool)
    requires multiset(s) == multiset(t)
    ensures multiset(Keep(s, p)) == multiset(Keep(t, p))
  {
    hide Keep;
    var a, b := multiset(Keep(s, p)), multiset(Keep(t, p));
    forall x | x in a + b
      ensures a[x] == b[x]
    {
      KeepCount(s, p, x);
      KeepCount(t, p, x);
    }
  }

  function Without<T>(s: seq<T>, i: nat): seq<T>
    requires i < |s|
  {
    s[..i] + s[i + 1..]
  }

  lemma WithoutMultiset<T>(s: seq<T>, i: nat)
    requires i < |s|
    ensures multiset(s) == multiset(Without(s, i)) + multiset{s[i]}
  {
    assert s == s[..i] + ([s[i]] + s[i + 1..]);
  }

  lemma {:induction false} ImageMultiset<T, U>(s: seq<T>, t: seq<T>, f: T -> U)
    requires multiset(s) == multiset(t)
    ensures multiset(Image(s, f)) == multiset(Image(t, f))
    decreases |s|
  {
    assert |multiset(s)| == |multiset(t)|;
    if s != [] {
      assert s[0] in multiset(t);
      var i :| 0 <= i < |t| && t[i] == s[0];
      hide Without;
      WithoutMultiset(s, 0);
      WithoutMultiset(t, i);
      assert multiset(Without(s, 0)) == multiset(s) - multiset{s[0]};
      assert multiset(Without(t, i)) == multiset(t) - multiset{s[0]};
      ImageMultiset(Without(s, 0), Without(t, i), f);
      WithoutImage(s, 0, f);
      WithoutImage(t, i, f);
      WithoutMultiset(Image(s, f), 0);
      WithoutMultiset(Image(t, f), i);
    }
  }

  lemma WithoutImage<T, U>(s: seq<T>, i: nat, f: T -> U)
    requires i < |s|
    ensures Image(Without(s, i), f) == Without(Image(s, f), i)
  {
  }

  lemma {:induction false} FirstSame<T>(s: seq<T>, p: T -> bool, q: T -> bool)
    requires forall x | x in s :: p(x) == q(x)
    ensures First(s, p) == First(s, q)
  {
    if s != [] { FirstSame(s[1..], p, q); }
  }

  function Both<T>(p: T -> bool, q: T -> bool): T -> bool { x => p(x) && q(x) }

  lemma {:induction false} FirstKeep<T>(s: seq<T>, p: T -> bool, q: T -> bool)
    ensures First(Keep(s, p), q) == First(s, Both(p, q))
  {
    hide First;
    if s != [] {
      var n := |s| - 1;
      FirstKeep(s[..n], p, q);
      FirstSnoc(s, Both(p, q));
      if p(s[n]) {
        FirstSnoc(Keep(s, p), q);
        assert Keep(s, p)[..|Keep(s, p)| - 1] == Keep(s[..n], p);
      } else {
        assert Keep(s, p) == Keep(s[..n], p);
      }
    }
  }

  // ----- Walking a set in some order, as over a Go map -------------------------

  lemma Inhabited<T>(s: set<T>)
    ensures s == {} || exists x :: x in s
  {
    if forall x :: x !in s { assert s == {}; }
  }

  method Pick<T(==)>(s: set<T>) returns (x: T)
    requires s != {}
    ensures x in s
  {
    Inhabited(s);
    x :| x in s;
  }
}
