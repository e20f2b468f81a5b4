// The doubly linked lists of lab2/libs/list.h, as the sequence of their entries
// from the head on: list_add puts an entry in front.

module Lists {

  ghost predicate NoDup<T>(s: seq<T>) {
    forall i, j :: 0 <= i < j < |s| ==> s[i] != s[j]
  }

  // list_del
  function Del<T(==)>(s: seq<T>, x: T): (r: seq<T>)
    ensures x in s ==> |r| == |s| - 1
    ensures x !in s ==> r == s
  {
    if s == [] then []
    else if s[0] == x then s[1..]
    else [s[0]] + Del(s[1..], x)
  }

  lemma {:induction false} DelMember<T>(s: seq<T>, x: T, y: T)
    requires NoDup(s)
    ensures y in Del(s, x) <==> y in s && y != x
  {
    if s != [] {
      assert s == [s[0]] + s[1..];
      if s[0] != x {
        DelMember(s[1..], x, y);
      }
    }
  }

  // The entries of s other than x, in their order.
  function Others<T(==)>(s: seq<T>, x: T): seq<T> {
    if s == [] then []
    else Others(s[..|s| - 1], x) + if s[|s| - 1] == x then [] else [s[|s| - 1]]
  }

  lemma {:induction false} OthersFront<T>(s: seq<T>, x: T)
    requires s != []
    ensures Others(s, x) == (if s[0] == x then [] else [s[0]]) + Others(s[1..], x)
    decreases |s|
  {
    var t := s[..|s| - 1];
    if |s| > 1 {
      OthersFront(t, x);
      assert s[1..][..|s| - 2] == t[1..];
    } else {
      assert t == [] && s[1..] == [];
    }
  }

  lemma {:induction false} OthersAll<T>(s: seq<T>, x: T)
    requires x !in s
    ensures Others(s, x) == s
    decreases |s|
  {
    if s != [] {
      OthersAll(s[..|s| - 1], x);
    }
  }

  lemma {:induction false} NotAmongOthers<T>(s: seq<T>, x: T)
    ensures x !in Others(s, x)
    decreases |s|
  {
    if s != [] {
      NotAmongOthers(s[..|s| - 1], x);
    }
  }

  // list_del takes one entry out and leaves the others in their order.
  lemma {:induction false} DelIsOthers<T>(s: seq<T>, x: T)
    requires NoDup(s)
    ensures Del(s, x) == Others(s, x)
    decreases |s|
  {
    if s != [] {
      OthersFront(s, x);
      if s[0] == x {
        assert x !in s[1..];
        OthersAll(s[1..], x);
      } else {
        DelIsOthers(s[1..], x);
      }
    }
  }

  lemma {:induction false} DelNoDup<T>(s: seq<T>, x: T)
    requires NoDup(s)
    ensures NoDup(Del(s, x))
  {
    if s != [] && s[0] != x {
      DelNoDup(s[1..], x);
      DelMember(s[1..], x, s[0]);
      var r := Del(s[1..], x);
      forall i, j | 0 <= i < j < |r| + 1 ensures ([s[0]] + r)[i] != ([s[0]] + r)[j] {
        if i == 0 {
          assert r[j - 1] in r;
        }
      }
    }
  }

  lemma {:induction false} AddNoDup<T>(s: seq<T>, x: T)
    requires NoDup(s) && x !in s
    ensures NoDup([x] + s)
  {
  }
}
