/** Types shared by every part of the model. */
module Common {

  type Byte = b: int | 0 <= b < 256

  type Bytes = seq<Byte>

  datatype Option<+T> = None | Some(value: T)

  datatype Result<+T, +E> = Ok(value: T) | Err(error: E)

  lemma HasElement<T>(s: set<T>) returns (x: T)
    requires s != {}
    ensures x in s
  {
    x :| x in s;
  }

  lemma SubsetSize<T>(a: set<T>, b: set<T>)
    requires a <= b
    ensures |a| <= |b| && (a != b ==> |a| < |b|)
  {
    assert b == a + (b - a);
    if a != b {
      assert b - a != {};
    }
  }

  lemma MapsAgree<K, V>(m: map<K, V>, n: map<K, V>)
    requires m.Keys == n.Keys && forall k | k in m :: m[k] == n[k]
    ensures m == n
  {
    assert forall k | k in m :: m[k] == n[k];
  }

  function Least(a: nat, b: nat): nat { if a < b then a else b }

  // One step around a ring of `size` slots.
  lemma WrapIncrement(i: nat, size: nat)
    requires i < size
    ensures (i + 1) % size == if i + 1 == size then 0 else i + 1
  {
  }

  // Scaling by a positive number keeps the order of reals.
  lemma ScaledOrder(x: real, y: real, scale: real)
    requires scale > 0.0
    ensures x * scale <= y * scale <==> x <= y
  {
    if x <= y {
      assert (y - x) * scale >= 0.0;
    } else {
      assert (x - y) * scale > 0.0;
    }
  }
}
