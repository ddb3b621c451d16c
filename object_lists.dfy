/** Facts about lists of objects and about lists cut into a part already
    looked at and a part still to come, shared by the classes that walk
    their lists in place. */
module ObjectLists {

  /** No object occurs twice in `s`, the way a list of objects appended once
      each is. */
  ghost predicate Unique<T>(s: seq<T>)
    decreases |s|
  {
    |s| == 0 || (s[|s| - 1] !in s[..|s| - 1] && Unique(s[..|s| - 1]))
  }

  /** In a list without repetitions, different positions hold different objects. */
  lemma {:induction false} UniqueAt<T>(s: seq<T>, i: int, k: int)
    requires Unique(s) && 0 <= i < |s| && 0 <= k < |s| && i != k
    ensures s[i] != s[k]
    decreases |s|
  {
    var t := s[..|s| - 1];
    if i == |s| - 1 {
      assert s[k] == t[k];
    } else if k == |s| - 1 {
      assert s[i] == t[i];
    } else {
      UniqueAt(t, i, k);
    }
  }

  /** Appending an object the list does not hold keeps it without repetitions. */
  lemma UniqueSnoc<T>(s: seq<T>, x: T)
    requires Unique(s) && x !in s
    ensures Unique(s + [x])
  {
    assert (s + [x])[..|s|] == s;
  }

  /** Removing one position keeps a list without repetitions. */
  lemma {:induction false} UniqueRemove<T>(s: seq<T>, i: int)
    requires Unique(s) && 0 <= i < |s|
    ensures Unique(s[..i] + s[i + 1..])
    decreases |s|
  {
    var t := s[..|s| - 1];
    if i < |s| - 1 {
      var x := s[|s| - 1];
      UniqueRemove(t, i);
      var r := t[..i] + t[i + 1..];
      assert s[..i] + s[i + 1..] == r + [x];
      assert x !in r by {
        assert forall y :: y in r ==> y in t;
      }
      UniqueSnoc(r, x);
    } else {
      assert s[..i] + s[i + 1..] == t;
    }
  }

  /** Concatenation regrouped. */
  lemma Reassoc<T>(a: seq<T>, b: seq<T>, c: seq<T>)
    ensures a + b + c == a + (b + c)
  {
  }

  /** Replacing the element between a prefix and a suffix. */
  lemma ReplaceFront<T>(v: seq<T>, done: seq<T>, rest: seq<T>, x: T, y: T)
    requires v == done + [x] + rest
    ensures v[|done| := y] == done + [y] + rest
  {
  }

  /** Removing the element between a prefix and a suffix. */
  lemma RemoveFront<T>(v: seq<T>, done: seq<T>, rest: seq<T>, x: T)
    requires v == done + [x] + rest
    ensures v[..|done|] + v[|done| + 1..] == done + rest
  {
    assert v[..|done|] == done && v[|done| + 1..] == rest;
  }

  /** A list that is a prefix followed by a non-empty suffix holds the
      suffix's first element right after the prefix. */
  lemma Uncons<T>(v: seq<T>, done: seq<T>, rest: seq<T>)
    requires v == done + rest && rest != []
    ensures v == done + [rest[0]] + rest[1..] && v[|done|] == rest[0]
  {
    assert rest == [rest[0]] + rest[1..];
  }
}
