/** Byte strings, as Python's `bytes` values, and their concatenation. */
module Bytes {

  /** One byte, 0..255. */
  type byte = x: int | 0 <= x < 256

  /** A vocabulary entry or merge unit: a byte string. */
  type Token = seq<byte>

  /** `b"".join(ts)`: the bytes of every token, in order. */
  function Flatten(ts: seq<Token>): Token
  {
    if |ts| == 0 then [] else ts[0] + Flatten(ts[1..])
  }

  /** `[bytes([b]) for b in bs]`: one single-byte unit per byte. */
  function Singles(bs: Token): seq<Token>
  {
    seq(|bs|, i requires 0 <= i < |bs| => [bs[i]])
  }

  lemma {:induction false} FlattenAppend(a: seq<Token>, b: seq<Token>)
    ensures Flatten(a + b) == Flatten(a) + Flatten(b)
  {
    if |a| == 0 {
      assert a + b == b;
    } else {
      assert (a + b)[1..] == a[1..] + b;
      FlattenAppend(a[1..], b);
    }
  }

  /** Splitting a byte string into single-byte units and joining them back is the identity. */
  lemma {:induction false} FlattenSingles(bs: Token)
    ensures Flatten(Singles(bs)) == bs
  {
    if |bs| > 0 {
      assert Singles(bs)[1..] == Singles(bs[1..]);
      FlattenSingles(bs[1..]);
    }
  }
}

/** The outcomes of the operations that can raise `KeyError` in the source. */
module Results {
  import opened Bytes

  datatype Option<T> = None | Some(value: T)

  /** `UnknownToken`: a merged token with no entry in `vocab_to_id`;
      `UnknownId`: an id with no entry in `vocab`. */
  datatype Error = UnknownToken(token: Token) | UnknownId(id: int)

  datatype Result<T> = Ok(value: T) | Err(error: Error)

  /** `a + b` on id or byte lists, where evaluating either side may raise:
      the first error (in evaluation order) is the outcome. */
  function Join<T>(a: Result<seq<T>>, b: Result<seq<T>>): Result<seq<T>>
  {
    if a.Err? then a else if b.Err? then b else Ok(a.value + b.value)
  }
}
