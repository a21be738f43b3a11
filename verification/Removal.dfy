/** std::list::remove. */
module Removal {

  function Without<T(==)>(s: seq<T>, x: T): seq<T> {
    if s == [] then [] else (if s[0] == x then [] else [s[0]]) + Without(s[1..], x)
  }

  /** It takes off all equal elements and no other. */
  lemma {:induction false} WithoutRemovesAll<T>(s: seq<T>, x: T, y: T)
    ensures y in Without(s, x) <==> y in s && y != x
  {
    if s != [] {
      assert s == [s[0]] + s[1..];
      WithoutRemovesAll(s[1..], x, y);
    }
  }

  lemma {:induction false} WithoutConcat<T>(s: seq<T>, t: seq<T>, x: T)
    ensures Without(s + t, x) == Without(s, x) + Without(t, x)
  {
    if s == [] {
      assert s + t == t;
    } else {
      assert (s + t)[0] == s[0] && (s + t)[1..] == s[1..] + t;
      WithoutConcat(s[1..], t, x);
    }
  }

  /** Erasing the element behind the part of a list that is done. */
  lemma EraseBehind<T>(done: seq<T>, rest: seq<T>)
    requires rest != []
    ensures var s := done + rest; s[|done|] == rest[0] && s[..|done|] + s[|done| + 1..] == done + rest[1..]
  {
    var s := done + rest;
    assert s[..|done|] == done && s[|done| + 1..] == rest[1..];
  }

  /** Replacing it. */
  lemma ReplaceBehind<T>(done: seq<T>, rest: seq<T>, x: T)
    requires rest != []
    ensures (done + rest)[|done| := x] == (done + [x]) + rest[1..]
  {
  }
}
