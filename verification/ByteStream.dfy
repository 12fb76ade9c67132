/** The input stream: single bytes, and block reads that may deliver less than was asked for. */
module ByteStreams {
  import opened BitStrings

  class ByteStream {
    const data: seq<byte>
    /** How many bytes a block read at a position delivers, before limiting it to what is there. */
    const policy: (nat, nat) -> nat
    var pos: nat

    ghost predicate Valid()
      reads this
    {
      pos <= |data|
    }

    constructor (data: seq<byte>, policy: (nat, nat) -> nat)
      ensures Valid() && this.data == data && this.policy == policy && pos == 0
    {
      this.data, this.policy, this.pos := data, policy, 0;
    }

    /** -1 at the end of the data. */
    method ReadByte() returns (b: int)
      requires Valid()
      modifies this
      ensures Valid()
      ensures old(pos) == |data| ==> b == -1 && pos == old(pos)
      ensures old(pos) < |data| ==> b == data[old(pos)] && pos == old(pos) + 1
    {
      if pos == |data| {
        b := -1;
      } else {
        b := data[pos];
        pos := pos + 1;
      }
    }

    /** Between 1 and n bytes as long as any are left and n > 0; 0 at the end of the data. */
    method Read(buffer: array<byte>, offset: nat, n: nat) returns (k: nat)
      requires Valid() && offset + n <= buffer.Length
      modifies this, buffer
      ensures Valid()
      ensures k == ShortRead(policy(old(pos), n), n, |data| - old(pos))
      ensures pos == old(pos) + k
      ensures buffer[..offset] == old(buffer[..offset]) && buffer[offset + k..] == old(buffer[offset + k..])
      ensures buffer[offset..offset + k] == data[old(pos)..pos]
    {
      k := ShortRead(policy(pos, n), n, |data| - pos);
      forall i | 0 <= i < k {
        buffer[offset + i] := data[pos + i];
      }
      pos := pos + k;
    }
  }

  /** A read of n bytes with `left` bytes to come delivers what the stream chooses, but at least one byte if it can. */
  function ShortRead(choice: nat, n: nat, left: nat): (k: nat)
    ensures k <= n && k <= left
    ensures 0 < n && 0 < left ==> 0 < k
  {
    var most := if n < left then n else left;
    if choice < 1 then (if most == 0 then 0 else 1) else if choice < most then choice else most
  }

  /** How many of n bytes from p on, with `left` to come, a stream has delivered after k reads. */
  function Got(policy: (nat, nat) -> nat, p: nat, n: nat, left: nat, k: nat): (got: nat)
    ensures got <= n && got <= left
  {
    if k == 0 then 0
    else
      var got := Got(policy, p, n, left, k - 1);
      got + ShortRead(policy(p + got, n - got), n - got, left - got)
  }
}
