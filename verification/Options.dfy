/**
 The small definitions shared by every part of the model: optional values, the larger and
 the smaller of two numbers, and how sequences are taken apart and put together. Sequence
 equality is extensional, and the lemmas here say once what would otherwise be asserted
 again and again where texts, token lists and stacks are cut and joined.
 */
module Options {
  datatype Option<+T> = None | Some(value: T)

  function Max(a: int, b: int): int {
    if a < b then b else a
  }

  function Min(a: int, b: int): int {
    if a < b then a else b
  }

  // ----- sequences taken apart and put together -----

  lemma Nothing<T>(s: seq<T>)
    ensures [] + s == s && s + [] == s
  {}

  lemma HeadTail<T>(s: seq<T>)
    requires s != []
    ensures s == [s[0]] + s[1..]
  {}

  lemma Cons<T>(x: T, s: seq<T>)
    ensures ([x] + s)[0] == x && ([x] + s)[1..] == s
  {}

  lemma TakeDrop<T>(a: seq<T>, b: seq<T>)
    ensures (a + b)[..|a|] == a && (a + b)[|a|..] == b
  {}

  lemma TakeOver<T>(a: seq<T>, b: seq<T>, k: nat)
    requires k <= |b|
    ensures (a + b)[..|a| + k] == a + b[..k]
  {}

  lemma SliceNext<T>(s: seq<T>, from: nat, n: nat)
    requires from <= n < |s|
    ensures s[from..n + 1] == s[from..n] + [s[n]]
  {}

  lemma SliceOfSlice<T>(s: seq<T>, i: nat, j: nat)
    requires i + j <= |s|
    ensures s[i..][j..] == s[i + j..]
  {}

  /** An update leaves what is in front of it and what is behind it. */
  lemma UpdateSides<T>(s: seq<T>, i: nat, x: T, from: nat)
    requires i < from <= |s|
    ensures s[i := x][..i] == s[..i] && s[i := x][from..] == s[from..]
  {}

  lemma UpdateNext<T>(s: seq<T>, from: nat, i: nat, x: T)
    requires from <= i < |s|
    ensures s[i := x][from..i + 1] == s[from..i] + [x]
  {}

  lemma DropOver<T>(a: seq<T>, b: seq<T>, k: nat)
    requires k <= |b|
    ensures (a + b)[|a| + k..] == b[k..]
  {}

  lemma Single<T>(x: T)
    ensures [x] + [] == [x] && [x] + [] + [] == [x]
  {}

  lemma FirstOver<T>(a: seq<T>, b: seq<T>)
    requires b != []
    ensures a + [b[0]] + b[1..] == a + b
  {}

  lemma Assoc<T>(a: seq<T>, b: seq<T>, c: seq<T>)
    ensures a + b + c == a + (b + c)
  {}
}
