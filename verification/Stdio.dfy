/** Input streams as the C library presents them. */
module Stdio {

  import opened Machine
  import opened TextLines

  const EOF: int := -1

  class Stream {
    const data: seq<u8>
    var pos: nat
    var atEnd: bool

    constructor (data: seq<u8>)
      ensures Valid() && this.data == data && pos == 0 && !atEnd
    {
      this.data, pos, atEnd := data, 0, false;
    }

    predicate Valid()
      reads this
    {
      pos <= |data| && (atEnd ==> pos == |data|)
    }

    function Rest(): seq<u8>
      requires Valid()
      reads this
    {
      data[pos..]
    }

    /** fgetc: the next byte, or EOF and the end-of-file indicator. */
    method Fgetc() returns (c: int)
      requires Valid()
      modifies this
      ensures Valid()
      ensures old(pos) < |data| ==> c == data[old(pos)] as int && pos == old(pos) + 1 && atEnd == old(atEnd)
      ensures old(pos) == |data| ==> c == EOF && pos == old(pos) && atEnd
    {
      if pos < |data| {
        c := data[pos];
        pos := pos + 1;
      } else {
        c := EOF;
        atEnd := true;
      }
    }

    /**
     fgets, section 7.19.7.2 of C99: at most `size - 1` bytes up to and
     including a newline, then a NUL. Nothing is stored when the stream ends
     before the first byte.
     */
    method Fgets(buffer: array<u8>, start: nat, size: nat) returns (ok: bool)
      requires Valid() && size >= 1 && start + size <= buffer.Length
      modifies this, buffer
      ensures Valid()
      ensures ok <==> size == 1 || old(Rest()) != []
      ensures !ok ==> buffer[..] == old(buffer[..]) && pos == old(pos) && atEnd
      ensures ok ==> var n := Taken(old(Rest()), size);
                && pos == old(pos) + n
                && buffer[start..start + n] == old(Rest())[..n] && buffer[start + n] == 0
                && (forall i :: 0 <= i < buffer.Length && !(start <= i <= start + n) ==> buffer[i] == old(buffer[i]))
                && (atEnd <==> old(atEnd) || (n < size - 1 && !EndsWith(old(Rest())[..n], NEWLINE)))
    {
      hide Taken, LineLength;
      var n := 0;
      ghost var rest := Rest();
      ok := true;
      while n < size - 1
        invariant Valid() && n <= size - 1 && n <= |rest| && pos == old(pos) + n && atEnd == old(atEnd)
        invariant NEWLINE !in rest[..n]
        invariant forall i :: 0 <= i < n ==> buffer[start + i] == rest[i]
        invariant forall i :: 0 <= i < buffer.Length && !(start <= i < start + n) ==> buffer[i] == old(buffer[i])
      {
        var c := Fgetc();
        if c == EOF {
          TakenIs(rest, size, n);
          if n == 0 {
            return false;
          }
          buffer[start + n] := 0;
          return;
        }
        buffer[start + n] := c;
        n := n + 1;
        assert rest[..n] == rest[..n - 1] + [rest[n - 1]];
        if c == NEWLINE as int {
          TakenIs(rest, size, n);
          buffer[start + n] := 0;
          return;
        }
      }
      TakenIs(rest, size, n);
      buffer[start + n] := 0;
    }
  }

  /** How many bytes fgets takes: a line, or what fits. */
  function Taken(rest: seq<u8>, size: nat): (n: nat)
    requires size >= 1
    ensures n <= |rest| && n < size
  {
    if LineLength(rest, NEWLINE) < size then LineLength(rest, NEWLINE) else size - 1
  }

  lemma TakenIs(rest: seq<u8>, size: nat, n: nat)
    requires 1 <= size && n < size && n <= |rest|
    requires n > 0 ==> NEWLINE !in rest[..n - 1]
    requires n == |rest| || n == size - 1 || (n > 0 && rest[n - 1] == NEWLINE)
    ensures Taken(rest, size) == n
  {
    if n > 0 {
      LineFrom(rest, NEWLINE, n - 1);
    }
  }
}
