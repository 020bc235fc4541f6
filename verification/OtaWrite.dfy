/** Writing an OTA image (esp_ota_ops.c): with flash encryption only whole 16-byte blocks reach
    the flash, so bytes are held back between calls. */
module OtaWrite {
  import opened LittleEndian
  import opened Sequences

  const MAGIC: byte := 0xE9

  datatype Outcome = Ok | InvalidArg | ValidateFailed | FlashFailed | InvalidState

  // ---- what an upload comes to, in terms of the bytes passed in so far ----

  /** How many bytes of `image` are in flash. */
  function Stored(encrypted: bool, image: seq<byte>): (n: nat)
    ensures n <= |image|
  {
    if encrypted then |image| - |image| % 16 else |image|
  }

  /** The outcome of passing `data` to `esp_ota_write` after `image`. */
  function WriteOutcome(room: nat, encrypted: bool, image: seq<byte>, data: seq<byte>): Outcome
  {
    if image == [] && data != [] && data[0] != MAGIC then ValidateFailed
    else if Stored(encrypted, image + data) > room then FlashFailed
    else Ok
  }

  /** The outcome of `esp_ota_end` after `image`. */
  function EndOutcome(room: nat, encrypted: bool, image: seq<byte>, verified: bool): Outcome
  {
    if Stored(encrypted, image) == 0 then InvalidArg
    else if Stored(encrypted, image) < |image| && Stored(encrypted, image) + 16 > room then InvalidState
    else if !verified then ValidateFailed
    else Ok
  }

  /** Pass the chunks one by one, stop at the first error, then end. */
  function Upload(room: nat, encrypted: bool, image: seq<byte>, chunks: seq<seq<byte>>, verified: bool): Outcome
    decreases |chunks|
  {
    if chunks == [] then EndOutcome(room, encrypted, image, verified)
    else
      var r := WriteOutcome(room, encrypted, image, chunks[0]);
      if r != Ok then r else Upload(room, encrypted, image + chunks[0], chunks[1..], verified)
  }

  /** What an upload of the whole image comes to. */
  function WholeOutcome(room: nat, encrypted: bool, image: seq<byte>, verified: bool): Outcome
  {
    if image != [] && image[0] != MAGIC then ValidateFailed
    else if Stored(encrypted, image) > room then FlashFailed
    else EndOutcome(room, encrypted, image, verified)
  }

  lemma StoredGrows(encrypted: bool, image: seq<byte>, more: seq<byte>)
    ensures Stored(encrypted, image) <= Stored(encrypted, image + more)
  {
    if encrypted {
      assert |image + more| / 16 >= |image| / 16;
    }
  }

  lemma StoredAligned(encrypted: bool, image: seq<byte>, more: seq<byte>)
    requires encrypted ==> |image| % 16 == 0
    ensures Stored(encrypted, image + more) == |image| + Stored(encrypted, more)
    ensures encrypted ==> Stored(encrypted, more) == |more| - |more| % 16 && Stored(encrypted, more) % 16 == 0
    ensures encrypted ==> (|image| + Stored(encrypted, more)) % 16 == 0
    ensures !encrypted ==> Stored(encrypted, more) == |more|
  {
    if encrypted {
      WholeBlocks(|image|, |more|);
    }
  }

  lemma WholeBlocks(a: nat, b: nat)
    requires a % 16 == 0
    ensures (a + b) % 16 == b % 16 && (b - b % 16) % 16 == 0 && (a + (b - b % 16)) % 16 == 0
  {}

  /** How the image is cut into calls decides neither success nor which error is reported. */
  lemma {:induction false} SplittingIsIrrelevant(
    room: nat, encrypted: bool, image: seq<byte>, chunks: seq<seq<byte>>, verified: bool)
    requires image != [] ==> image[0] == MAGIC
    requires Stored(encrypted, image) <= room
    ensures Upload(room, encrypted, image, chunks, verified) ==
            WholeOutcome(room, encrypted, image + Concat(chunks), verified)
    decreases |chunks|
  {
    if chunks == [] {
      assert image + Concat(chunks) == image;
    } else {
      var rest := Concat(chunks[1..]);
      assert image + Concat(chunks) == (image + chunks[0]) + rest;
      StoredGrows(encrypted, image + chunks[0], rest);
      if WriteOutcome(room, encrypted, image, chunks[0]) == Ok {
        SplittingIsIrrelevant(room, encrypted, image + chunks[0], chunks[1..], verified);
      } else if image == [] && chunks[0] != [] && chunks[0][0] != MAGIC {
        assert (image + Concat(chunks))[0] == chunks[0][0];
      } else {
        assert image + Concat(chunks) != [] ==> (image + Concat(chunks))[0] == MAGIC;
      }
    }
  }

  /** The room an image needs: whole blocks, under encryption. */
  function Needed(encrypted: bool, image: seq<byte>): nat
  {
    if encrypted then (|image| + 15) / 16 * 16 else |image|
  }

  /** An upload succeeds if and only if the image starts with the magic byte, has a whole block under
      encryption, fits the partition and passes verification; and what each error means. */
  lemma OutcomeIff(room: nat, encrypted: bool, image: seq<byte>, verified: bool)
    ensures var r := WholeOutcome(room, encrypted, image, verified);
            var magic := image != [] && image[0] == MAGIC;
            var block := |image| >= if encrypted then 16 else 1;
            && (r == Ok <==> magic && block && Needed(encrypted, image) <= room && verified)
            && (r == ValidateFailed <==>
                  (image != [] && !magic) || (magic && block && Needed(encrypted, image) <= room && !verified))
            && (r == InvalidArg <==> (image == [] || magic) && !block)
            && (r == FlashFailed || r == InvalidState <==> magic && block && Needed(encrypted, image) > room)
  {
    if encrypted {
      BlocksOf(|image|);
    }
  }

  lemma BlocksOf(n: nat)
    ensures (n + 15) / 16 * 16 == (if n % 16 == 0 then n else n - n % 16 + 16)
  {}

  // ---- the code ----

  /** One update in progress: `partial[..partialBytes]` waits for its block to fill up. The
      array `flash` is the partition as read back through decryption. */
  class Update {
    const encrypted: bool
    const flash: array<byte>
    const partial: array<byte>
    var wroteSize: nat
    var partialBytes: nat

    constructor (encrypted: bool, partition: array<byte>)
      ensures Valid() && this.encrypted == encrypted && flash == partition && fresh(partial)
      ensures Image() == []
    {
      this.encrypted, flash, partial := encrypted, partition, new byte[16](_ => 0);
      wroteSize, partialBytes := 0, 0;
    }

    ghost predicate Valid()
      reads this
    {
      && partial != flash && partial.Length == 16
      && partialBytes < 16 && wroteSize <= flash.Length
      && (if encrypted then wroteSize % 16 == 0 else partialBytes == 0)
    }

    /** All bytes passed in so far. */
    ghost function Image(): (image: seq<byte>)
      requires Valid()
      reads this, flash, partial
      ensures Stored(encrypted, image) == wroteSize && |image| == wroteSize + partialBytes
    {
      flash[..wroteSize] + partial[..partialBytes]
    }

    /** `esp_partition_write`, with the alignment that encrypted writes demand. */
    method FlashWrite(offset: nat, data: seq<byte>) returns (ok: bool)
      modifies flash
      ensures ok <==> offset + |data| <= flash.Length && (encrypted ==> offset % 16 == 0 && |data| % 16 == 0)
      ensures ok ==> flash[..] == old(flash[..offset]) + data + old(flash[offset + |data|..])
      ensures !ok ==> flash[..] == old(flash[..])
    {
      if offset > flash.Length || offset + |data| > flash.Length {
        return false;
      }
      if encrypted && (offset % 16 != 0 || |data| % 16 != 0) {
        return false;
      }
      forall k | 0 <= k < |data| {
        flash[offset + k] := data[k];
      }
      ok := true;
    }

    /** `memcpy` into the block buffer. */
    method Hold(at: nat, data: seq<byte>)
      requires at + |data| <= partial.Length
      modifies partial
      ensures partial[..] == old(partial[..at]) + data + old(partial[at + |data|..])
    {
      forall k | 0 <= k < |data| {
        partial[at + k] := data[k];
      }
    }

    /** First part of `esp_ota_write` under encryption: top up the block held back earlier and
        write it once it is full. */
    method FillBlock(bytes: seq<byte>) returns (used: nat, r: Outcome)
      requires Valid() && encrypted && partialBytes != 0
      modifies this`wroteSize, this`partialBytes, flash, partial
      ensures used <= |bytes| && r in {Ok, FlashFailed}
      ensures r == Ok ==> Valid() && Image() == old(Image()) + bytes[..used] && (used == |bytes| || partialBytes == 0)
      ensures r == Ok <==> Stored(true, old(Image()) + bytes[..used]) <= flash.Length
      ensures r == FlashFailed ==> wroteSize == old(wroteSize) && flash[..] == old(flash[..])
    {
      used := if 16 - partialBytes < |bytes| then 16 - partialBytes else |bytes|;
      Hold(partialBytes, bytes[..used]);
      partialBytes := partialBytes + used;
      ghost var image := old(Image()) + bytes[..used];
      assert image == flash[..wroteSize] + partial[..partialBytes];
      if partialBytes != 16 {
        return used, Ok;
      }
      var ok := FlashWrite(wroteSize, partial[..]);
      if !ok {
        return used, FlashFailed;
      }
      partialBytes := 0;
      forall k | 0 <= k < 16 {
        partial[k] := 0xFF;
      }
      wroteSize := wroteSize + 16;
      assert image == flash[..wroteSize];
      r := Ok;
    }

    /** Second part: hold back the bytes that do not fill a block. */
    method HoldTail(bytes: seq<byte>) returns (whole: nat)
      requires Valid() && partialBytes == 0
      modifies this`partialBytes, partial
      ensures whole == Stored(encrypted, bytes)
      ensures whole + partialBytes == |bytes| && partialBytes < 16 && (!encrypted ==> partialBytes == 0)
      ensures partial[..partialBytes] == bytes[whole..]
    {
      whole := |bytes|;
      if encrypted {
        partialBytes := |bytes| % 16;
        if partialBytes != 0 {
          whole := whole - partialBytes;
          Hold(0, bytes[whole..]);
        }
      }
    }

    /** Third part: write the whole blocks. */
    method WriteBlocks(bytes: seq<byte>) returns (r: Outcome)
      requires Valid() && partialBytes == 0
      modifies this`wroteSize, this`partialBytes, flash, partial
      ensures r in {Ok, FlashFailed}
      ensures r == Ok <==> Stored(encrypted, old(Image()) + bytes) <= flash.Length
      ensures r == Ok ==> Valid() && Image() == old(Image()) + bytes
      ensures r == FlashFailed ==> wroteSize == old(wroteSize) && flash[..] == old(flash[..])
    {
      hide Stored;
      ghost var was := Image();
      StoredAligned(encrypted, was, bytes);
      assert was == flash[..wroteSize];
      var whole := HoldTail(bytes);
      var ok := FlashWrite(wroteSize, bytes[..whole]);
      if !ok {
        return FlashFailed;
      }
      wroteSize := wroteSize + whole;
      assert flash[..wroteSize] == was + bytes[..whole];
      assert was + bytes == was + bytes[..whole] + bytes[whole..];
      r := Ok;
    }

    /** `esp_ota_write`. After a failed flash write only what is already in flash is promised. */
    method Write(data: seq<byte>) returns (r: Outcome)
      requires Valid()
      modifies this`wroteSize, this`partialBytes, flash, partial
      ensures r == WriteOutcome(flash.Length, encrypted, old(Image()), data)
      ensures r != FlashFailed ==> Valid()
      ensures r == Ok ==> Image() == old(Image()) + data
      ensures r == ValidateFailed ==> Image() == old(Image())
      ensures wroteSize <= flash.Length && flash[..wroteSize] <= old(Image()) + data
    {
      hide Stored;
      ghost var was := Image();
      if wroteSize == 0 && partialBytes == 0 && |data| > 0 && data[0] != MAGIC {
        return ValidateFailed;
      }
      var used := 0;
      if encrypted && partialBytes != 0 {
        used, r := FillBlock(data);
        assert was + data == was + data[..used] + data[used..];
        StoredGrows(encrypted, was + data[..used], data[used..]);
        if r != Ok || partialBytes != 0 {
          assert r == Ok ==> data[..used] == data;
          return;
        }
      }
      assert was + data == (was + data[..used]) + data[used..];
      assert Image() == was + data[..used];
      r := WriteBlocks(data[used..]);
    }

    /** `esp_ota_end`; the image check that follows the last write is a parameter. */
    method End(verified: bool) returns (r: Outcome)
      requires Valid()
      modifies this`wroteSize, this`partialBytes, flash
      ensures r == EndOutcome(flash.Length, encrypted, old(Image()), verified)
      ensures r == Ok ==> |old(Image())| <= wroteSize <= flash.Length && flash[..|old(Image())|] == old(Image())
    {
      ghost var was := Image();
      if wroteSize == 0 {
        return InvalidArg;
      }
      if partialBytes > 0 {
        var ok := FlashWrite(wroteSize, partial[..]);
        if !ok {
          return InvalidState;
        }
        assert flash[..|was|] == was;
        wroteSize := wroteSize + 16;
        partialBytes := 0;
      }
      if !verified {
        return ValidateFailed;
      }
      r := Ok;
    }

    /** A whole update: however the image is cut up, the same outcome and the same image in flash. */
    method Perform(chunks: seq<seq<byte>>, verified: bool) returns (r: Outcome)
      requires Valid() && Image() == []
      modifies this`wroteSize, this`partialBytes, flash, partial
      ensures r == WholeOutcome(flash.Length, encrypted, Concat(chunks), verified)
      ensures r == Ok ==> |Concat(chunks)| <= flash.Length && flash[..|Concat(chunks)|] == Concat(chunks)
      ensures r == Ok <==>
                && verified && |Concat(chunks)| >= (if encrypted then 16 else 1) && Concat(chunks)[0] == MAGIC
                && Needed(encrypted, Concat(chunks)) <= flash.Length
    {
      hide Stored, WriteOutcome, EndOutcome, WholeOutcome;
      assert Stored(encrypted, []) == 0;
      SplittingIsIrrelevant(flash.Length, encrypted, [], chunks, verified);
      assert [] + Concat(chunks) == Concat(chunks);
      OutcomeIff(flash.Length, encrypted, Concat(chunks), verified);
      var i := 0;
      assert chunks[0..] == chunks;
      while i < |chunks|
        invariant i <= |chunks| && Valid()
        invariant Image() + Concat(chunks[i..]) == Concat(chunks)
        invariant Upload(flash.Length, encrypted, Image(), chunks[i..], verified) ==
                  WholeOutcome(flash.Length, encrypted, Concat(chunks), verified)
      {
        assert chunks[i..][0] == chunks[i] && chunks[i..][1..] == chunks[i + 1..];
        assert Image() + Concat(chunks[i..]) == Image() + chunks[i] + Concat(chunks[i + 1..]);
        r := Write(chunks[i]);
        if r != Ok {
          return;
        }
        i := i + 1;
      }
      r := End(verified);
    }
  }
}
