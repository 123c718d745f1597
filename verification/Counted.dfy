/** Counted repetition in a byte format: a reader applied `k` times in a row, and the writer it
    inverts. Nothing here knows what is read. */
module Counted {
  type Byte = x: int | 0 <= x < 256
  type Bytes = seq<Byte>

  /** The items read and the bytes left; `PastEnd` is a read past the end. */
  datatype Parse<T> = PastEnd | Got(items: seq<T>, rest: Bytes)

  function Prepend<T>(items: seq<T>, p: Parse<T>): Parse<T> {
    match p
    case PastEnd => PastEnd
    case Got(more, rest) => Got(items + more, rest)
  }

  function Repeat<T>(get: Bytes -> Parse<T>, b: Bytes, k: nat): Parse<T>
    decreases k
  {
    if k == 0 then Got([], b) else
      match get(b)
      case PastEnd => PastEnd
      case Got(items, rest) => Prepend(items, Repeat(get, rest, k - 1))
  }

  function PutAll<X>(put: X -> Bytes, xs: seq<X>): Bytes {
    if xs == [] then [] else put(xs[0]) + PutAll(put, xs[1..])
  }

  function Flatten<X, T>(out: X -> seq<T>, xs: seq<X>): seq<T> {
    if xs == [] then [] else out(xs[0]) + Flatten(out, xs[1..])
  }

  lemma PrependPrepend<T>(a: seq<T>, b: seq<T>, p: Parse<T>)
    ensures Prepend(a, Prepend(b, p)) == Prepend(a + b, p)
  {
    if p.Got? { assert a + (b + p.items) == (a + b) + p.items; }
  }

  lemma PrependNothing<T>(p: Parse<T>)
    ensures Prepend([], p) == p
  {
    if p.Got? { assert [] + p.items == p.items; }
  }

  lemma RepeatStep<T>(get: Bytes -> Parse<T>, b: Bytes, k: nat, items: seq<T>, rest: Bytes)
    requires k > 0 && get(b) == Got(items, rest)
    ensures Repeat(get, b, k) == Prepend(items, Repeat(get, rest, k - 1))
  {
  }

  /** If the reader inverts the writer on every element, whatever follows, then `k` readings
      invert the writing of `k` elements. */
  lemma {:induction false} RepeatRoundTrip<X(!new), T>(get: Bytes -> Parse<T>, put: X -> Bytes, out: X -> seq<T>, xs: seq<X>, post: Bytes)
    requires forall x, q :: x in xs ==> get(put(x) + q) == Got(out(x), q)
    ensures Repeat(get, PutAll(put, xs) + post, |xs|) == Got(Flatten(out, xs), post)
    decreases |xs|
  {
    if xs == [] {
      assert PutAll(put, xs) + post == post;
    } else {
      var tail := PutAll(put, xs[1..]) + post;
      assert PutAll(put, xs) + post == put(xs[0]) + tail;
      RepeatRoundTrip(get, put, out, xs[1..], post);
      RepeatStep(get, put(xs[0]) + tail, |xs|, out(xs[0]), tail);
    }
  }

  lemma {:induction false} FlattenOnes<T>(one: T -> seq<T>, xs: seq<T>)
    requires forall x :: x in xs ==> one(x) == [x]
    ensures Flatten(one, xs) == xs
  {
    if xs != [] {
      FlattenOnes(one, xs[1..]);
      assert [xs[0]] + xs[1..] == xs;
    }
  }

  // ---- reading by offset ----

  /** The items so far and the offset reached, or a failed read. */
  datatype Cursor<T> = Failed | At(items: seq<T>, offset: nat)

  /** The cursor says in offsets into `raw` what the parse says in bytes left. */
  ghost predicate Agrees<T>(raw: Bytes, c: Cursor<T>, p: Parse<T>) {
    match c
    case Failed => p.PastEnd?
    case At(items, offset) => offset <= |raw| && p == Got(items, raw[offset..])
  }

  /** One turn of a counted loop: an offset that advances and a list that grows. */
  lemma Progress<T>(get: Bytes -> Parse<T>, raw: Bytes, offset: nat, k: nat, items: seq<T>, read: Cursor<T>)
    requires offset <= |raw| && k > 0 && read.At? && Agrees(raw, read, get(raw[offset..]))
    ensures Prepend(items, Repeat(get, raw[offset..], k)) ==
            Prepend(items + read.items, Repeat(get, raw[read.offset..], k - 1))
  {
    RepeatStep(get, raw[offset..], k, read.items, raw[read.offset..]);
    PrependPrepend(items, read.items, Repeat(get, raw[read.offset..], k - 1));
  }

  /** A reader that leaves following bytes alone still does when repeated. */
  lemma {:induction false} RepeatExtends<T>(get: Bytes -> Parse<T>, b: Bytes, q: Bytes, k: nat)
    requires forall b', q' :: get(b').Got? ==> get(b' + q') == Got(get(b').items, get(b').rest + q')
    requires Repeat(get, b, k).Got?
    ensures Repeat(get, b + q, k) == Got(Repeat(get, b, k).items, Repeat(get, b, k).rest + q)
    decreases k
  {
    if k > 0 {
      var Got(items, rest) := get(b);
      assert get(b + q) == Got(items, rest + q);
      RepeatExtends(get, rest, q, k - 1);
      RepeatStep(get, b + q, k, items, rest + q);
    }
  }
}
