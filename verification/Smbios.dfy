/** The search for the SMBIOS entry point below one megabyte. */
module Smbios {

  import opened Machine

  const NULL: int := -1
  const FIRST: nat := 0xF_0000
  const LIMIT: nat := 0x10_0000

  function Sum(s: seq<u8>): nat {
    if s == [] then 0 else Sum(s[..|s| - 1]) + s[|s| - 1]
  }

  lemma {:induction false} SumOfConcat(a: seq<u8>, b: seq<u8>)
    ensures Sum(a + b) == Sum(a) + Sum(b)
    ensures forall x: u8 :: Sum([x]) == x as int
  {
    SumOfOne();
    if b == [] {
      assert a + b == a;
    } else {
      var n := |b| - 1;
      assert (a + b)[..|a + b| - 1] == a + b[..n];
      SumOfConcat(a, b[..n]);
    }
  }

  lemma SumOfOne()
    ensures Sum([]) == 0 && forall x: u8 :: Sum([x]) == x as int
  {
    forall x: u8 ensures Sum([x]) == x as int {
      assert [x][..0] == [];
    }
  }

  /** The anchor matches, and as many bytes as it declares sum to 0 modulo 256. */
  predicate IsEntry(memory: seq<u8>, a: nat)
    requires a + 256 <= |memory|
  {
    && memory[a..a + 4] == [95, 83, 77, 95]
    && Sum(memory[a..a + memory[a + 5]]) % 256 == 0
  }

  predicate Candidate(a: nat) {
    FIRST <= a < LIMIT && a % 16 == 0
  }

  /**
   An entry point structure in memory: `_SM_`, checksum and length, and the
   rest of its bytes. It is accepted exactly when all of them sum to 0.
   */
  lemma StructureAccepted(memory: seq<u8>, a: nat, checksum: u8, length: u8, rest: seq<u8>)
    requires a + 256 <= |memory| && length == 6 + |rest|
    requires memory[a..a + length] == [95, 83, 77, 95, checksum, length] + rest
    ensures IsEntry(memory, a) <==> (95 + 83 + 77 + 95 + checksum + length + Sum(rest)) % 256 == 0
  {
    hide Sum;
    var s, head := memory[a..a + length], [95, 83, 77, 95, checksum, length];
    assert memory[a] == s[0] && memory[a + 1] == s[1] && memory[a + 2] == s[2] && memory[a + 3] == s[3];
    assert memory[a + 5] == s[5];
    EntryBytes(memory, a);
    HeaderSum(checksum, length);
    SumOfConcat(head, rest);
  }

  lemma HeaderSum(checksum: u8, length: u8)
    ensures Sum([95, 83, 77, 95, checksum, length]) == 95 + 83 + 77 + 95 + checksum + length
  {
    SumOfConcat([95, 83, 77, 95, checksum], [length]);
    SumOfConcat([95, 83, 77, 95], [checksum]);
    SumOfConcat([95, 83, 77], [95]);
    SumOfConcat([95, 83], [77]);
    SumOfConcat([95], [83]);
    hide Sum;
    assert [95] + [83] == [95, 83] && [95, 83] + [77] == [95, 83, 77] && [95, 83, 77] + [95] == [95, 83, 77, 95];
    assert [95, 83, 77, 95] + [checksum] == [95, 83, 77, 95, checksum];
    assert [95, 83, 77, 95, checksum] + [length] == [95, 83, 77, 95, checksum, length];
  }

  /** The window: 4096 addresses, sixteen bytes apart. */
  lemma CandidateIff(a: nat)
    ensures Candidate(a) <==> exists i :: 0 <= i < 4096 && a == 0xF_0000 + 16 * i
  {
    if Candidate(a) {
      var i := (a - 0xF_0000) / 16;
      assert a == 0xF_0000 + 16 * i;
    }
  }

  /** The inner loop: bytes added up in a byte register. */
  method Checksum(memory: array<u8>, mem: nat, length: u8) returns (checksum: u8)
    requires mem + length <= memory.Length
    ensures checksum == Sum(memory[mem..mem + length]) % 256
  {
    checksum := 0;
    var i := 0;
    while i < length
      invariant 0 <= i <= length
      invariant checksum == Sum(memory[mem..mem + i]) % 256
    {
      assert memory[mem..mem + i + 1][..i] == memory[mem..mem + i];
      checksum := (checksum + memory[mem + i]) % 256;
      i := i + 1;
    }
  }

  lemma EntryBytes(memory: seq<u8>, a: nat)
    requires a + 256 <= |memory|
    ensures IsEntry(memory, a) <==>
              && memory[a] == 95 && memory[a + 1] == 83 && memory[a + 2] == 77 && memory[a + 3] == 95
              && Sum(memory[a..a + memory[a + 5]]) % 256 == 0
  {
    hide Sum;
    assert memory[a..a + 4] == [memory[a], memory[a + 1], memory[a + 2], memory[a + 3]];
  }

  /** The outer loop: every sixteenth address of the window, from the lowest on. */
  method LocateEntry(memory: array<u8>) returns (entry: int)
    requires memory.Length >= LIMIT + 256
    ensures entry == -1 || (0xF_0000 <= entry <= 0xF_FFF0 && entry % 16 == 0)
    ensures entry != NULL ==> entry >= 0 && Candidate(entry) && IsEntry(memory[..], entry)
                              && forall a: nat :: Candidate(a) && a < entry ==> !IsEntry(memory[..], a)
    ensures entry == NULL <==> forall a: nat :: Candidate(a) ==> !IsEntry(memory[..], a)
  {
    hide IsEntry, Sum;
    var mem := FIRST;
    while mem < LIMIT
      invariant FIRST <= mem <= LIMIT && mem % 16 == 0
      invariant forall a: nat :: Candidate(a) && a < mem ==> !IsEntry(memory[..], a)
    {
      EntryBytes(memory[..], mem);
      if memory[mem] == 95 && memory[mem + 1] == 83 && memory[mem + 2] == 77 && memory[mem + 3] == 95 {
        var length := memory[mem + 5];
        var checksum := Checksum(memory, mem, length);
        if checksum == 0 {
          return mem;
        }
      }
      mem := mem + 16;
    }
    return NULL;
  }
}
