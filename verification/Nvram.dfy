/** The storage driver: one flat region of octets. Every operation may fail, and a failing
    operation changes nothing. */
module Nvram {
  import opened Bytes

  /** BOAT_RESULT values; all error codes are negative. */
  const SUCCESS: int := 0
  const ERROR: int := -1
  const ERROR_OUT_OF_MEMORY: int := -10100001
  const ERROR_FILE_WRITE_FAIL: int := -10400001
  const ERROR_FILE_READ_FAIL: int := -10400002

  class Device {
    const mem: array<byte>
    // Outcome of every operation so far, oldest first: the environment's record of what it
    // let fail. No firmware operation depends on it; the drivers of whole runs read it to tell
    // whether the file is still known.
    var log: seq<bool>

    constructor (contents: array<byte>)
      ensures mem == contents && log == []
    {
      mem := contents;
      log := [];
    }

    /** No operation after the first n failed. */
    ghost predicate CleanSince(n: nat)
      reads this`log
    {
      forall k :: n <= k < |log| ==> log[k]
    }

    method Read(offset: nat, len: nat) returns (code: int, data: seq<byte>)
      modifies this`log
      ensures log == old(log) + [code == SUCCESS]
      ensures code <= SUCCESS
      ensures code == SUCCESS ==> offset + len <= mem.Length && data == mem[offset..offset + len]
    {
      data := [];
      code := *;
      if code >= SUCCESS {
        if offset + len <= mem.Length {
          code, data := SUCCESS, mem[offset..offset + len];
        } else {
          code := ERROR_FILE_READ_FAIL;
        }
      }
      log := log + [code == SUCCESS];
    }

    method Write(offset: nat, data: seq<byte>) returns (code: int)
      modifies this`log, mem
      ensures log == old(log) + [code == SUCCESS]
      ensures code <= SUCCESS
      ensures code == SUCCESS ==> offset + |data| <= mem.Length && mem[..] == Overwrite(old(mem[..]), offset, data)
      ensures code != SUCCESS ==> mem[..] == old(mem[..])
    {
      code := *;
      if code >= SUCCESS {
        if offset + |data| <= mem.Length {
          code := SUCCESS;
          forall k | 0 <= k < |data| {
            mem[offset + k] := data[k];
          }
          assert mem[offset..offset + |data|] == data;
          assert mem[..] == mem[..offset] + mem[offset..offset + |data|] + mem[offset + |data|..];
        } else {
          code := ERROR_FILE_WRITE_FAIL;
        }
      }
      log := log + [code == SUCCESS];
    }

    /** Heap allocation on behalf of a store operation. */
    method Allocate() returns (ok: bool)
      modifies this`log
      ensures log == old(log) + [ok]
    {
      ok := *;
      log := log + [ok];
    }
  }

  /** The region after `data` has been written at `offset`. */
  function Overwrite(m: seq<byte>, offset: nat, data: seq<byte>): (r: seq<byte>)
    requires offset + |data| <= |m|
    ensures |r| == |m|
    ensures r[..offset] == m[..offset]
    ensures r[offset..offset + |data|] == data
    ensures r[offset + |data|..] == m[offset + |data|..]
  {
    m[..offset] + data + m[offset + |data|..]
  }
}
