/**
 * The list of enabled module names a user holds, and what the callback toggle does to
 * it: `list.remove` of the first occurrence, `list.append`, and `':'.join` for the store.
 */
module Subscriptions {

  /** Each name at most once. */
  predicate NoDup<T(==)>(s: seq<T>)
  {
    forall i, j :: 0 <= i < j < |s| ==> s[i] != s[j]
  }

  /** Position of the first occurrence of `x`. */
  function IndexOf<T(==)>(s: seq<T>, x: T): (i: nat)
    requires x in s
    ensures i < |s| && s[i] == x && x !in s[..i]
  {
    if s[0] == x then 0
    else
      var k := IndexOf(s[1..], x);
      assert s[..k + 1] == [s[0]] + s[1..][..k];
      1 + k
  }

  /** Python `list.remove(x)`: drops the first occurrence (callers check `x in s` first). */
  function RemoveFirst<T(==)>(s: seq<T>, x: T): (r: seq<T>)
    requires x in s
    ensures r == s[..IndexOf(s, x)] + s[IndexOf(s, x) + 1..]
  {
    if s[0] == x then s[1..]
    else
      var r := [s[0]] + RemoveFirst(s[1..], x);
      assert s[..IndexOf(s, x)] == [s[0]] + s[1..][..IndexOf(s[1..], x)];
      r
  }

  /** The feedback word of the callback: `'OFF'` when a module was switched off. */
  datatype Switch = On | Off
  {
    function Label(): string
    {
      match this
      case On => "ON"
      case Off => "OFF"
    }
  }

  /** The new list after the callback: remove the name if present, else append it. */
  function Toggle<T(==)>(s: seq<T>, x: T): seq<T>
  {
    if x in s then RemoveFirst(s, x) else s + [x]
  }

  /** The switch reported for toggling `x` in `s`. */
  function SwitchFor<T(==)>(s: seq<T>, x: T): Switch
  {
    if x in s then Off else On
  }

  /** Python `sep.join(parts)`. */
  function Join(parts: seq<string>, sep: string): string
  {
    if |parts| == 0 then ""
    else if |parts| == 1 then parts[0]
    else parts[0] + sep + Join(parts[1..], sep)
  }

  /**
   * Toggling takes exactly one copy of `x` out when it is present and adds one when
   * it is absent; no other name's count changes.
   */
  lemma ToggleCounts<T>(s: seq<T>, x: T)
    ensures multiset(Toggle(s, x)) ==
      if x in s then multiset(s) - multiset{x} else multiset(s) + multiset{x}
  {
    if x in s {
      var i := IndexOf(s, x);
      assert s == s[..i] + [x] + s[i + 1..];
    }
  }

  /**
   * On a list without duplicates the toggled name flips membership and every other
   * name keeps its membership.
   */
  lemma ToggleFlips<T>(s: seq<T>, x: T)
    requires NoDup(s)
    ensures x in Toggle(s, x) <==> x !in s
    ensures forall y :: y != x ==> (y in Toggle(s, x) <==> y in s)
  {
    var t := Toggle(s, x);
    ToggleCounts(s, x);
    if x in s {
      var i := IndexOf(s, x);
      assert t == s[..i] + s[i + 1..];
      assert x !in s[i + 1..] by {
        forall j | i + 1 <= j < |s| ensures s[j] != x { }
      }
    }
    forall y | y != x ensures y in t <==> y in s {
      assert multiset(t)[y] == multiset(s)[y];
      assert y in t <==> y in multiset(t);
      assert y in s <==> y in multiset(s);
    }
  }

  /** Toggling keeps a list free of duplicates. */
  lemma ToggleKeepsNoDup<T>(s: seq<T>, x: T)
    requires NoDup(s)
    ensures NoDup(Toggle(s, x))
  {
  }

  /** Enabling an absent name and disabling it again gives back the very same list. */
  lemma ToggleTwiceAbsent<T>(s: seq<T>, x: T)
    requires x !in s
    ensures Toggle(Toggle(s, x), x) == s
  {
  }

  /**
   * Disabling an enabled name and enabling it again restores membership; on a list
   * without duplicates the name has moved to the end.
   */
  lemma ToggleTwicePresent<T>(s: seq<T>, x: T)
    requires NoDup(s) && x in s
    ensures Toggle(Toggle(s, x), x) == RemoveFirst(s, x) + [x]
    ensures forall y :: y in Toggle(Toggle(s, x), x) <==> y in s
  {
  }

  /** Appending a name to a non-empty list appends the separator and the name to its join. */
  lemma {:induction false} JoinAppend(parts: seq<string>, sep: string, x: string)
    requires parts != []
    ensures Join(parts + [x], sep) == Join(parts, sep) + sep + x
    decreases |parts|
  {
    if |parts| > 1 {
      assert (parts + [x])[1..] == parts[1..] + [x];
      JoinAppend(parts[1..], sep, x);
    }
  }
}
