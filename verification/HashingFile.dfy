/** A file handle that hashes what is read through it, in order. */
module HashingFile {
  import opened Bytes
  import opened Blake2b

  datatype ReadResult = Bytes(bytes: seq<Byte>) | NotSequential

  class Handle {
    const source: seq<Byte>
    const state: Hasher
    var pos: nat
    var finalized: bool
    var digest: seq<Byte>
    /** How much had been read when the digest was taken. */
    ghost var closed: nat

    ghost predicate Valid()
      reads this, state, state.buf
    {
      && pos <= |source| && state.Shaped()
      && (!finalized ==> state.Valid() && state.data == source[..pos])
      && (finalized ==> closed <= |source| && digest == Digest(state.compress, source[..closed]))
    }

    constructor (source: seq<Byte>, compress: Compress)
      ensures Valid() && this.source == source && pos == 0 && !finalized && state.compress == compress
      ensures fresh(state) && fresh(state.buf)
    {
      this.source, pos, finalized, digest, closed := source, 0, false, [], 0;
      state := new Hasher(compress);
      new;
      assert source[..0] == [];
    }

    /**
     Reads in order, hashing what is read. `available` is how much the source delivers of
     what is asked for. Reads after the digest was taken go on, and leave it alone.
     */
    method Read(loc: nat, count: nat, available: nat) returns (r: ReadResult)
      requires Valid() && available <= count && pos + available <= |source|
      modifies this`pos, state, state.buf
      ensures Valid()
      ensures r.NotSequential? <==> loc != old(pos)
      ensures r.NotSequential? ==> pos == old(pos)
      ensures r.Bytes? ==> pos == old(pos) + available && r.bytes == source[old(pos)..old(pos) + available]
    {
      hide Absorbed, BlockCount;
      if loc != pos {
        return NotSequential;
      }
      var got := source[pos..pos + available];
      state.Update(got);
      assert source[..pos] + got == source[..pos + available];
      pos := pos + available;
      return Bytes(got);
    }

    /** Compares the digest of what has been read; asking again gives the same answer. */
    method CheckHash(reference: seq<Byte>) returns (same: bool)
      requires Valid()
      modifies this`finalized, this`digest, this`closed, state, state.buf
      ensures Valid() && finalized && closed == (if old(finalized) then old(closed) else pos)
      ensures same <==> reference == Digest(state.compress, source[..closed])
    {
      if !finalized {
        digest := state.Final();
        finalized := true;
        closed := pos;
      }
      return digest == reference;
    }
  }

  /** Reading a file to its end in any portions and checking it compares the digest of the whole file. */
  method CheckFile(source: seq<Byte>, compress: Compress, portions: seq<nat>, reference: seq<Byte>) returns (same: bool)
    requires Total(portions) == |source|
    ensures same <==> reference == Digest(compress, source)
  {
    var handle := new Handle(source, compress);
    for i := 0 to |portions|
      invariant handle.Valid() && !handle.finalized && handle.source == source && handle.state.compress == compress
      invariant fresh(handle) && fresh(handle.state) && fresh(handle.state.buf)
      invariant handle.pos == Total(portions[..i])
    {
      assert portions[..i + 1][..i] == portions[..i];
      TotalGrows(portions, i + 1);
      var r := handle.Read(handle.pos, portions[i], portions[i]);
    }
    assert portions[..|portions|] == portions;
    same := handle.CheckHash(reference);
    assert source[..|source|] == source;
  }

  function Total(portions: seq<nat>): nat {
    if portions == [] then 0 else Total(portions[..|portions| - 1]) + portions[|portions| - 1]
  }

  lemma {:induction false} TotalGrows(portions: seq<nat>, n: nat)
    requires n <= |portions|
    ensures Total(portions[..n]) <= Total(portions)
    decreases |portions| - n
  {
    if n == |portions| {
      assert portions[..n] == portions;
    } else {
      assert portions[..n + 1][..n] == portions[..n];
      TotalGrows(portions, n + 1);
    }
  }
}
