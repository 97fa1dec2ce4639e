/** The fuzz-input byte cursor of the Kafka fuzz client.

    The client loads its whole input file into one global buffer and hands
    it out byte by byte through a global read position. Once the position
    reaches the end of the buffer every further read yields 0 and the
    position stays where it is. Fixed-width integers and strings are built
    from successive single-byte reads.

    The module gives a value-level reference model of the cursor (NextByte,
    Step, ReadN, Serve, Session) and the class FuzzStream, which holds the
    buffer and the position as fields and whose methods are proved against
    that reference model. */
module Cursor {

  /** 2^32: one more than the largest C `unsigned int`. */
  const UintLimit: int := 0x1_0000_0000

  function Min(a: int, b: int): int {
    if a <= b then a else b
  }

  /** The byte a read at position `pos` yields: the stored byte, or 0 once the input is exhausted. */
  function NextByte(data: seq<bv8>, pos: nat): bv8 {
    if pos < |data| then data[pos] else 0
  }

  /** How many bytes are still unread from position `pos` (none at or past the end). */
  function Remaining(data: seq<bv8>, pos: nat): nat {
    if pos < |data| then |data| - pos else 0
  }

  /** One call of `read_byte` as a transition: the byte returned and the position afterwards. */
  function Step(data: seq<bv8>, pos: nat): (bv8, nat) {
    if pos >= |data| then (0, pos) else (data[pos], pos + 1)
  }

  /** `n` successive calls of `read_byte`: the bytes returned, in order, and the final position. */
  function ReadN(data: seq<bv8>, pos: nat, n: nat): (r: (seq<bv8>, nat))
    ensures |r.0| == n
    decreases n
  {
    if n == 0 then ([], pos)
    else
      var (b, next) := Step(data, pos);
      var (rest, end) := ReadN(data, next, n - 1);
      ([b] + rest, end)
  }

  /** The k-th of `n` successive reads yields the byte at `pos + k` (0 past the end), and the
      position advances by `n` or by what is left, whichever is smaller. */
  lemma {:induction false} ReadNSpec(data: seq<bv8>, pos: nat, n: nat)
    ensures forall k :: 0 <= k < n ==> ReadN(data, pos, n).0[k] == NextByte(data, pos + k)
    ensures ReadN(data, pos, n).1 == pos + Min(n, Remaining(data, pos))
    decreases n
  {
    if n > 0 {
      var (b, next) := Step(data, pos);
      ReadNSpec(data, next, n - 1);
      var rest := ReadN(data, next, n - 1).0;
      assert ReadN(data, pos, n).0 == [b] + rest;
      forall k | 0 <= k < n
        ensures ReadN(data, pos, n).0[k] == NextByte(data, pos + k)
      {
        if k > 0 {
          assert rest[k - 1] == NextByte(data, next + k - 1);
        }
      }
    }
  }

  /** The value `read_int` computes from the four bytes it reads, statement by statement:
      the first byte is shifted left by 24, then the accumulated value is shifted by 16
      and by 8 after the second and third bytes are OR-ed in, all in 32-bit unsigned
      arithmetic. The first byte is shifted out of the word, so the result is
      `(b1 << 24) | (b2 << 8) | b3`. */
  function IntAsWritten(b0: bv8, b1: bv8, b2: bv8, b3: bv8): (r: bv32)
    ensures r == ((b1 as bv32) << 24) | ((b2 as bv32) << 8) | (b3 as bv32)
    ensures r & 0x00FF_0000 == 0
  {
    var acc0 := (b0 as bv32) << 24;
    var acc1 := (acc0 | (b1 as bv32)) << 16;
    var acc2 := (acc1 | (b2 as bv32)) << 8;
    acc2 | (b3 as bv32)
  }

  /** The first byte `read_int` consumes has no influence on its result. */
  lemma ReadIntIgnoresFirstByte(b0: bv8, c0: bv8, b1: bv8, b2: bv8, b3: bv8)
    ensures IntAsWritten(b0, b1, b2, b3) == IntAsWritten(c0, b1, b2, b3)
  {
  }

  /** The three bytes that do reach the result of `read_int` can be recovered from it. */
  lemma ReadIntKeepsLastThreeBytes(b0: bv8, b1: bv8, b2: bv8, b3: bv8)
    ensures (IntAsWritten(b0, b1, b2, b3) >> 24) as bv8 == b1
    ensures ((IntAsWritten(b0, b1, b2, b3) >> 8) & 0xFF) as bv8 == b2
    ensures (IntAsWritten(b0, b1, b2, b3) & 0xFF) as bv8 == b3
  {
  }

  /** One request the harness makes of the cursor: a byte, an int, or a string of a given length. */
  datatype Request = Byte | Int | Str(len: nat)

  /** What a request yields. A string carries its NUL terminator. */
  datatype Value = ByteValue(b: bv8) | IntValue(i: bv32) | StrValue(s: seq<bv8>)

  /** How many calls of `read_byte` a request makes. */
  function Width(req: Request): nat {
    match req
    case Byte => 1
    case Int => 4
    case Str(n) => n
  }

  function TotalWidth(reqs: seq<Request>): nat {
    if reqs == [] then 0 else Width(reqs[0]) + TotalWidth(reqs[1..])
  }

  /** Serving one request from position `pos`: `read_byte`, `read_int` or `read_string`. */
  function Serve(data: seq<bv8>, pos: nat, req: Request): (Value, nat) {
    match req
    case Byte =>
      var (b, next) := Step(data, pos);
      (ByteValue(b), next)
    case Int =>
      var (bs, next) := ReadN(data, pos, 4);
      (IntValue(IntAsWritten(bs[0], bs[1], bs[2], bs[3])), next)
    case Str(n) =>
      var (bs, next) := ReadN(data, pos, n);
      (StrValue(bs + [0]), next)
  }

  /** What one request yields, stated in terms of the input bytes, and where it leaves the cursor. */
  lemma ServeSpec(data: seq<bv8>, pos: nat, req: Request)
    ensures Serve(data, pos, req).1 == pos + Min(Width(req), Remaining(data, pos))
    ensures req.Byte? ==> Serve(data, pos, req).0 == ByteValue(NextByte(data, pos))
    ensures req.Int? ==> Serve(data, pos, req).0 == IntValue(IntAsWritten(
      NextByte(data, pos), NextByte(data, pos + 1), NextByte(data, pos + 2), NextByte(data, pos + 3)))
    ensures req.Str? ==>
      var s := Serve(data, pos, req).0.s;
      |s| == req.len + 1 && s[req.len] == 0 &&
      forall k :: 0 <= k < req.len ==> s[k] == NextByte(data, pos + k)
  {
    match req
    case Byte =>
    case Int =>
      ReadNSpec(data, pos, 4);
    case Str(n) =>
      ReadNSpec(data, pos, n);
      var bs := ReadN(data, pos, n).0;
      assert Serve(data, pos, req).0.s == bs + [0];
  }

  /** A whole sequence of requests served one after the other from position `pos`. */
  function Session(data: seq<bv8>, pos: nat, reqs: seq<Request>): (r: (seq<Value>, nat))
    ensures |r.0| == |reqs|
    decreases |reqs|
  {
    if reqs == [] then ([], pos)
    else
      var (v, next) := Serve(data, pos, reqs[0]);
      var (vs, end) := Session(data, next, reqs[1..]);
      ([v] + vs, end)
  }

  /** Across any sequence of requests the position only moves forward, by exactly the number of
      bytes requested or by what is left, whichever is smaller; so a cursor that starts within
      the input never passes its end. */
  lemma {:induction false} SessionPosition(data: seq<bv8>, pos: nat, reqs: seq<Request>)
    ensures Session(data, pos, reqs).1 == pos + Min(TotalWidth(reqs), Remaining(data, pos))
    ensures pos <= Session(data, pos, reqs).1
    ensures pos <= |data| ==> Session(data, pos, reqs).1 <= |data|
    decreases |reqs|
  {
    if reqs != [] {
      var next := Serve(data, pos, reqs[0]).1;
      ServeSpec(data, pos, reqs[0]);
      SessionPosition(data, next, reqs[1..]);
    }
  }

  /** Every value of a session is the value of its request served where the previous one left off. */
  lemma {:induction false} SessionValues(data: seq<bv8>, pos: nat, reqs: seq<Request>, i: nat)
    requires i < |reqs|
    ensures Session(data, pos, reqs).0[i] ==
      Serve(data, pos + Min(TotalWidth(reqs[..i]), Remaining(data, pos)), reqs[i]).0
    decreases i
  {
    var next := Serve(data, pos, reqs[0]).1;
    ServeSpec(data, pos, reqs[0]);
    if i > 0 {
      SessionValues(data, next, reqs[1..], i - 1);
      assert reqs[1..][..i - 1] == reqs[..i][1..];
      assert TotalWidth(reqs[..i]) == Width(reqs[0]) + TotalWidth(reqs[1..][..i - 1]);
    } else {
      assert reqs[..0] == [];
    }
  }

  /** The global input buffer `fuzz_file_string` of length `fuzz_file_length` and the global
      read position `fuzz_file_index`. */
  class FuzzStream {
    var data: seq<bv8>
    var index: nat

    /** The position is a C `unsigned int`; an input shorter than 2^32 bytes keeps every
        increment of it from wrapping. */
    ghost predicate Valid()
      reads this
    {
      |data| < UintLimit && index < UintLimit
    }

    /** The state once the input file has been loaded: the whole file, read position 0. */
    constructor (input: seq<bv8>)
      requires |input| < UintLimit
      ensures Valid() && data == input && index == 0
    {
      data := input;
      index := 0;
    }

    /** `read_byte`: the next byte and one step forward, or 0 and no move once the input is
        exhausted. Only the position changes. */
    method ReadByte() returns (b: bv8)
      requires Valid()
      modifies this`index
      ensures Valid() && data == old(data)
      ensures old(index) >= |data| ==> b == 0 && index == old(index)
      ensures old(index) < |data| ==> b == data[old(index)] && index == old(index) + 1
    {
      if index >= |data| {
        return 0;
      }
      b := data[index];
      index := index + 1;
    }

    /** `read_int`: four successive reads, combined by the shift-and-OR sequence of IntAsWritten. */
    method ReadInt() returns (r: bv32)
      requires Valid()
      modifies this`index
      ensures Valid() && data == old(data)
      ensures r == IntAsWritten(NextByte(data, old(index)), NextByte(data, old(index) + 1),
                                NextByte(data, old(index) + 2), NextByte(data, old(index) + 3))
      ensures index == old(index) + Min(4, Remaining(data, old(index)))
    {
      ghost var start := index;
      var b0 := ReadByte();
      assert b0 == NextByte(data, start) && index == start + Min(1, Remaining(data, start));
      var b1 := ReadByte();
      assert b1 == NextByte(data, start + 1) && index == start + Min(2, Remaining(data, start));
      var b2 := ReadByte();
      assert b2 == NextByte(data, start + 2) && index == start + Min(3, Remaining(data, start));
      var b3 := ReadByte();
      r := IntAsWritten(b0, b1, b2, b3);
    }

    /** `read_string(n)`: a fresh buffer of `n + 1` bytes holding the next `n` reads (0 past the
        end of the input) followed by a NUL terminator. The length must leave room for the
        terminator in an `unsigned int`. */
    method ReadString(n: nat) returns (s: array<bv8>)
      requires Valid() && n < UintLimit - 1
      modifies this`index
      ensures Valid() && data == old(data)
      ensures fresh(s) && s.Length == n + 1
      ensures forall k :: 0 <= k < n ==> s[k] == NextByte(data, old(index) + k)
      ensures s[n] == 0
      ensures s[..n] == ReadN(data, old(index), n).0
      ensures index == old(index) + Min(n, Remaining(data, old(index)))
    {
      s := new bv8[n + 1];
      var i := 0;
      while i < n
        invariant 0 <= i <= n
        invariant Valid() && data == old(data)
        invariant index == old(index) + Min(i, Remaining(data, old(index)))
        invariant forall k :: 0 <= k < i ==> s[k] == NextByte(data, old(index) + k)
      {
        var b := ReadByte();
        s[i] := b;
        i := i + 1;
      }
      s[n] := 0;
      ReadNSpec(data, old(index), n);
      assert s[..n] == ReadN(data, old(index), n).0;
    }

    /** `read_string(read_byte())`, how the client reads its topic name and group id: one length
        byte, then that many string bytes. */
    method ReadLengthPrefixed() returns (s: array<bv8>)
      requires Valid()
      modifies this`index
      ensures Valid() && data == old(data)
      ensures fresh(s) && s.Length == NextByte(data, old(index)) as nat + 1
      ensures forall k :: 0 <= k < s.Length - 1 ==> s[k] == NextByte(data, old(index) + 1 + k)
      ensures s[s.Length - 1] == 0
      ensures index == old(index) + Min(s.Length, Remaining(data, old(index)))
    {
      var n := ReadByte();
      s := ReadString(n as nat);
    }
  }
}
