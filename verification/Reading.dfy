// Results of reading something from the front of a sequence: the value and how much it takes;
// and C strings.
module Reading {
  import opened Arith

  datatype Option<+T> = None | Some(value: T)

  // The same with k more in front.
  function Shift<T>(r: Option<(T, nat)>, k: nat): Option<(T, nat)> {
    match r
    case None => None
    case Some((v, n)) => Some((v, k + n))
  }

  lemma ShiftTwice<T>(r: Option<(T, nat)>, a: nat, b: nat)
    ensures Shift(Shift(r, a), b) == Shift(r, b + a)
  {
  }

  lemma ShiftNone<T>(k: nat)
    ensures Shift<T>(None, k) == None
  {
  }

  // What a reading method leaves behind: the result d from s, with what it takes taken.
  ghost predicate Took<E, T>(s: seq<E>, after: seq<E>, d: Option<(T, nat)>, r: Option<T>) {
    match d
    case None => r == None
    case Some((v, n)) => n <= |s| && r == Some(v) && after == s[n..]
  }

  lemma TookNone<E, T>(s: seq<E>, after: seq<E>, d: Option<(T, nat)>)
    requires d == None
    ensures Took(s, after, d, None)
  {
  }

  lemma TookFailed<E, T>(s: seq<E>, after: seq<E>, d: Option<(T, nat)>)
    requires Took(s, after, d, None)
    ensures d == None
  {
  }

  // No byte of s ends a C string.
  predicate NoZero(s: seq<Byte>) {
    forall i :: 0 <= i < |s| ==> s[i] != 0
  }
}
