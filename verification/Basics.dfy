/** Bytes, and the two wrappers that stand for Rust's `Option` and `Result`. */
module Basics {
  type byte = x: int | 0 <= x < 256

  type bytes = seq<byte>

  datatype Option<+T> = None | Some(value: T) {
    predicate IsFailure() {
      None?
    }

    function PropagateFailure<U>(): Option<U>
      requires None?
    {
      None
    }

    function Extract(): T
      requires Some?
    {
      value
    }
  }

  datatype Result<+T, +E> = Ok(value: T) | Err(error: E) {
    predicate IsFailure() {
      Err?
    }

    function PropagateFailure<U>(): Result<U, E>
      requires Err?
    {
      Err(error)
    }

    function Extract(): T
      requires Ok?
    {
      value
    }
  }

  /** The value of a `Some`, or the given error: Rust's `ok_or`. */
  function OkOr<T, E>(o: Option<T>, e: E): Result<T, E> {
    match o
    case Some(v) => Ok(v)
    case None => Err(e)
  }

  /** `n` zero bytes. */
  function Zeros(n: nat): (z: bytes)
    ensures |z| == n && forall i :: 0 <= i < n ==> z[i] == 0
  {
    seq(n, _ => 0)
  }

  /** ASCII text as bytes. */
  function Ascii(s: string): (b: bytes)
    requires forall i :: 0 <= i < |s| ==> s[i] as int < 128
    ensures |b| == |s| && forall i :: 0 <= i < |s| ==> b[i] == s[i] as int
  {
    seq<byte>(|s|, i requires 0 <= i < |s| => s[i] as int)
  }

  lemma AppendAssociative<T>(x: seq<T>, y: seq<T>, z: seq<T>)
    ensures x + y + z == x + (y + z)
  {
  }

  lemma ConsTail<T>(s: seq<T>)
    requires s != []
    ensures [s[0]] + s[1..] == s
  {
  }

  /** The first elements of a slice, and what is behind them. */
  lemma SliceHead<T>(s: seq<T>, a: nat, b: nat)
    requires a < b <= |s|
    ensures s[a..b][0] == s[a] && s[a..b][1..] == s[a + 1..b]
    ensures a + 1 < b ==> s[a..b][1] == s[a + 1] && s[a..b][2..] == s[a + 2..b]
  {
  }

  lemma WholeTail<T>(s: seq<T>, a: nat)
    requires a <= |s|
    ensures s[a..] == s[a..|s|]
  {
  }

  lemma TakeDrop<T>(s: seq<T>, n: nat)
    requires n <= |s|
    ensures s[..n] + s[n..] == s
  {
  }

  /** Every element decoded, or `None` at the first that is not: collecting an iterator of options. */
  function Collect<S, T>(f: S -> Option<T>, xs: seq<S>): (r: Option<seq<T>>)
    ensures r.Some? <==> forall x :: x in xs ==> f(x).Some?
    ensures r.Some? ==> |r.value| == |xs| && forall i :: 0 <= i < |xs| ==> f(xs[i]) == Some(r.value[i])
  {
    if xs == [] then Some([])
    else
      match f(xs[0])
      case None => None
      case Some(y) =>
        match Collect(f, xs[1..])
        case None => None
        case Some(ys) => Some([y] + ys)
  }
}
