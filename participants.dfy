/**
 * The participant list of the money-splitting screen
 * (client/src/SplitAmountApp.js, lines 19-28): names are trimmed,
 * non-empty and unique, kept in insertion order.  Adding and removing build
 * a new list, so both are functions here.
 */
module Participants {

  /** True of the characters ECMAScript's `String.prototype.trim` strips:
      WhiteSpace (tab, VT, FF, space, NBSP, BOM and the Zs category) and
      LineTerminator (LF, CR, LS, PS). */
  predicate IsWhiteSpace(c: char) {
    var n := c as int;
    n == 0x09 || n == 0x0A || n == 0x0B || n == 0x0C || n == 0x0D ||
    n == 0x20 || n == 0xA0 || n == 0x1680 || (0x2000 <= n <= 0x200A) ||
    n == 0x2028 || n == 0x2029 || n == 0x202F || n == 0x205F ||
    n == 0x3000 || n == 0xFEFF
  }

  /** Drops the leading white space: the result is a suffix of `s`, what was
      dropped is all white space, and the result does not start with any. */
  function TrimStart(s: string): (r: string)
    ensures |r| <= |s| && r == s[|s| - |r|..]
    ensures forall k :: 0 <= k < |s| - |r| ==> IsWhiteSpace(s[k])
    ensures r == [] || !IsWhiteSpace(r[0])
  {
    if s != [] && IsWhiteSpace(s[0]) then TrimStart(s[1..]) else s
  }

  /** Drops the trailing white space: the result is a prefix of `s`, what was
      dropped is all white space, and the result does not end with any. */
  function TrimEnd(s: string): (r: string)
    ensures |r| <= |s| && r == s[..|r|]
    ensures forall k :: |r| <= k < |s| ==> IsWhiteSpace(s[k])
    ensures r == [] || !IsWhiteSpace(r[|r| - 1])
  {
    if s != [] && IsWhiteSpace(s[|s| - 1]) then TrimEnd(s[..|s| - 1]) else s
  }

  /** `name.trim()`: `name` without its leading and trailing white space.
      The result is the stretch of `name` that starts where `TrimStart`
      stops, and all that follows it is white space; it neither starts nor ends with white space, and it is empty
      exactly when `name` is blank. */
  function Trim(name: string): (r: string)
    ensures |r| <= |name|
    ensures r == [] || (!IsWhiteSpace(r[0]) && !IsWhiteSpace(r[|r| - 1]))
    ensures r == [] <==> forall k :: 0 <= k < |name| ==> IsWhiteSpace(name[k])
    ensures |r| <= |TrimStart(name)| && r == name[|name| - |TrimStart(name)|..][..|r|]
    ensures forall k :: |name| - |TrimStart(name)| + |r| <= k < |name| ==> IsWhiteSpace(name[k])
  {
    var front := TrimStart(name);
    var r := TrimEnd(front);
    var cut := |name| - |front|;
    assert r == [] ==> forall k :: 0 <= k < |name| ==> IsWhiteSpace(name[k]) by {
      if r == [] {
        forall k | 0 <= k < |name| ensures IsWhiteSpace(name[k]) {
          if k >= cut {
            assert name[k] == front[k - cut];
          }
        }
      }
    }
    r
  }

  /** Trimming a trimmed name changes nothing. */
  lemma TrimIdempotent(name: string)
    ensures Trim(Trim(name)) == Trim(name)
  {
    var t := Trim(name);
    if t != [] {
      assert TrimStart(t) == t;
      assert TrimEnd(t) == t;
    }
  }

  /** No name occurs twice. */
  predicate NoDuplicates<T(==)>(ps: seq<T>) {
    forall i, j :: 0 <= i < j < |ps| ==> ps[i] != ps[j]
  }

  /** A name as the list holds it: non-empty and already trimmed. */
  predicate IsName(x: string) {
    x != [] && Trim(x) == x
  }

  /** The invariant the add and remove actions keep on the participant list. */
  predicate ValidRoster(ps: seq<string>) {
    NoDuplicates(ps) && forall i :: 0 <= i < |ps| ==> IsName(ps[i])
  }

  /** `addParticipant`: appends the trimmed name when it is non-empty and not
      yet listed; otherwise the list is returned unchanged. */
  function Add(ps: seq<string>, name: string): (r: seq<string>)
    ensures |ps| <= |r| <= |ps| + 1 && r[..|ps|] == ps
    ensures |r| == |ps| + 1 <==> Trim(name) != [] && Trim(name) !in ps
    ensures |r| == |ps| + 1 ==> r[|ps|] == Trim(name)
  {
    var t := Trim(name);
    if t != [] && t !in ps then ps + [t] else ps
  }

  /** `participants.filter(p => p !== x)`: every entry other than `x`, in
      the original order.  It serves `removeParticipant` and the receiver
      list of a distribution (all participants but the payer). */
  function Without<T(==,!new)>(ps: seq<T>, x: T): (r: seq<T>)
    ensures forall y :: y in r <==> y in ps && y != x
    ensures |r| <= |ps|
  {
    if ps == [] then []
    else (if ps[0] == x then [] else [ps[0]]) + Without(ps[1..], x)
  }

  /** Filtering distributes over concatenation, so the entries kept stay in
      their relative order. */
  lemma {:induction false} WithoutConcat<T(!new)>(a: seq<T>, b: seq<T>, x: T)
    ensures Without(a + b, x) == Without(a, x) + Without(b, x)
  {
    if a == [] {
      assert a + b == b;
    } else {
      assert (a + b)[1..] == a[1..] + b;
      WithoutConcat(a[1..], b, x);
    }
  }

  /** Removing a name that is not listed leaves the list as it was. */
  lemma {:induction false} WithoutAbsent<T(!new)>(ps: seq<T>, x: T)
    requires x !in ps
    ensures Without(ps, x) == ps
  {
    if ps != [] {
      WithoutAbsent(ps[1..], x);
      assert ps == [ps[0]] + ps[1..];
    }
  }

  /** On a duplicate-free list, removing the entry at `k` deletes exactly
      that slot and keeps everything else in order. */
  lemma WithoutExactly<T(!new)>(ps: seq<T>, k: nat)
    requires NoDuplicates(ps) && k < |ps|
    ensures Without(ps, ps[k]) == ps[..k] + ps[k + 1..]
  {
    NotElsewhere(ps, k);
    WithoutSlot(ps, k);
  }

  /** In a duplicate-free list the entry at `k` occurs nowhere else. */
  lemma NotElsewhere<T(!new)>(ps: seq<T>, k: nat)
    requires NoDuplicates(ps) && k < |ps|
    ensures ps[k] !in ps[..k] && ps[k] !in ps[k + 1..]
  {
  }

  /** Removing the entry at `k`, when it occurs nowhere else, closes the gap. */
  lemma {:induction false} WithoutSlot<T(!new)>(ps: seq<T>, k: nat)
    requires k < |ps| && ps[k] !in ps[..k] && ps[k] !in ps[k + 1..]
    ensures Without(ps, ps[k]) == ps[..k] + ps[k + 1..]
  {
    var x, tail := ps[k], ps[1..];
    if k == 0 {
      WithoutAbsent(tail, x);
    } else {
      assert tail[k - 1] == x;
      assert tail[..k - 1] == ps[1..k];
      assert tail[k..] == ps[k + 1..];
      WithoutSlot(tail, k - 1);
      assert ps[..k] == [ps[0]] + ps[1..k];
    }
  }

  /** Removing keeps the list duplicate-free. */
  lemma {:induction false} WithoutNoDuplicates<T(!new)>(ps: seq<T>, x: T)
    requires NoDuplicates(ps)
    ensures NoDuplicates(Without(ps, x))
  {
    if ps != [] {
      WithoutNoDuplicates(ps[1..], x);
      var rest := Without(ps[1..], x);
      assert ps[0] !in ps[1..];
      assert ps[0] !in rest;
    }
  }

  /** Adding keeps the roster invariant: unique, trimmed, non-empty names. */
  lemma AddKeepsRoster(ps: seq<string>, name: string)
    requires ValidRoster(ps)
    ensures ValidRoster(Add(ps, name))
  {
    var t := Trim(name);
    if t != [] && t !in ps {
      TrimIdempotent(name);
      AppendNoDuplicates(ps, t);
      var r := ps + [t];
      forall i | 0 <= i < |r| ensures IsName(r[i]) {
        if i < |ps| {
          assert r[i] == ps[i];
        }
      }
    }
  }

  lemma AppendNoDuplicates<T>(ps: seq<T>, t: T)
    requires NoDuplicates(ps) && t !in ps
    ensures NoDuplicates(ps + [t])
  {
  }

  /** Removing keeps the roster invariant. */
  lemma WithoutKeepsRoster(ps: seq<string>, x: string)
    requires ValidRoster(ps)
    ensures ValidRoster(Without(ps, x))
  {
    WithoutNoDuplicates(ps, x);
    var w := Without(ps, x);
    forall i | 0 <= i < |w| ensures IsName(w[i]) {
      assert w[i] in ps;
    }
  }

  /** Adding a new name and then removing it gives back the original list. */
  lemma AddThenRemove(ps: seq<string>, name: string)
    requires Trim(name) !in ps
    ensures Without(Add(ps, name), Trim(name)) == ps
  {
    var t := Trim(name);
    WithoutAbsent(ps, t);
    if t != [] {
      WithoutConcat(ps, [t], t);
    }
  }

  /** The filtered list is empty exactly when every entry is `x`. */
  lemma WithoutEmpty<T(!new)>(ps: seq<T>, x: T)
    ensures Without(ps, x) == [] <==> forall i :: 0 <= i < |ps| ==> ps[i] == x
  {
    if Without(ps, x) == [] {
      forall i | 0 <= i < |ps| ensures ps[i] == x {
        assert ps[i] in ps;
      }
    } else {
      var y := Without(ps, x)[0];
      assert y in ps && y != x;
    }
  }

  /** The receiver pool of a distribution is empty exactly when the roster
      is empty or holds only the payer. */
  lemma NoReceiversIff(ps: seq<string>, payer: string)
    requires NoDuplicates(ps)
    ensures Without(ps, payer) == [] <==> ps == [] || ps == [payer]
  {
    WithoutEmpty(ps, payer);
  }
}
