/** Values shared by every module of the model.
    A JavaScript call that either returns or throws is a `Result`: `Err` carries
    the `message` of the thrown `Error` (an error without a message is modelled
    by the empty message, which no substring test matches). */
module Common {

  datatype Option<+T> = None | Some(value: T)

  datatype Result<+T> = Ok(value: T) | Err(message: string)

  /** The outcome of one call to a generative-AI endpoint: the reply text, or the
      message of the error it threw. */
  datatype Reply = Reply(text: string) | Failure(message: string)

  /** The head and tail of a concatenation whose first part is non-empty. */
  lemma HeadTailAppend<T>(a: seq<T>, b: seq<T>)
    requires a != []
    ensures (a + b)[0] == a[0] && (a + b)[1..] == a[1..] + b
  {
  }

  /** Concatenation is associative. */
  lemma ConcatAssoc<T>(x: seq<T>, y: seq<T>, z: seq<T>)
    ensures (x + y) + z == x + (y + z)
  {
  }

  /** A longer prefix is the shorter one and the next element. */
  lemma PrefixSnoc<T>(s: seq<T>, n: nat)
    requires n < |s|
    ensures s[..n + 1] == s[..n] + [s[n]]
  {
  }

  /** A non-empty sequence is its head followed by its tail. */
  lemma HeadTail<T>(s: seq<T>)
    requires s != []
    ensures s == [s[0]] + s[1..]
  {
  }

  /** The smaller of two integers, `Math.min`. */
  function Min(a: int, b: int): int
  {
    if a < b then a else b
  }
}
