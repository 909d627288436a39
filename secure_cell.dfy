/** The locked buffer that holds the secret: a fixed-size byte array that is
    readable while immutable and writable only between MakeMutable and
    MakeImmutable. */
module SecureCell {
  import opened Protocol

  class Cell {
    /** The backing memory, allocated once with the buffer size. */
    const buffer: array<byte>
    /** Whether the buffer may currently be written. */
    var mutable: bool

    ghost predicate Valid()
    {
      buffer.Length > 0
    }

    /** A new immutable buffer of `size` zero bytes. */
    constructor (size: nat)
      requires size > 0
      ensures Valid() && !mutable && fresh(buffer)
      ensures buffer.Length == size && buffer[..] == Zeros(size)
    {
      buffer := new byte[size](_ => Nul);
      mutable := false;
    }

    method MakeMutable()
      modifies this
      ensures mutable
    {
      mutable := true;
    }

    method MakeImmutable()
      modifies this
      ensures !mutable
    {
      mutable := false;
    }

    /** Overwrites every byte of the buffer with zero. */
    method Wipe()
      requires mutable
      modifies buffer
      ensures buffer[..] == Zeros(buffer.Length)
    {
      var i := 0;
      while i < buffer.Length
        invariant 0 <= i <= buffer.Length
        invariant buffer[..i] == Zeros(i)
      {
        buffer[i] := Nul;
        i := i + 1;
      }
    }

    /** Copies `src` into the front of the buffer with Go's `copy`
        semantics: bytes of `src` beyond the buffer's length are dropped. */
    method Move(src: seq<byte>)
      requires mutable
      modifies buffer
      ensures buffer[..] == CopyInto(old(buffer[..]), src)
    {
      var n := Min(buffer.Length, |src|);
      var i := 0;
      while i < n
        invariant 0 <= i <= n
        invariant buffer[..i] == src[..i]
        invariant buffer[i..] == old(buffer[i..])
      {
        buffer[i] := src[i];
        i := i + 1;
      }
    }
  }
}
