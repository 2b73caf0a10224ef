/** The snapshot file and how it is replaced (modules/storage/engine.go). */
module Storage {
  import opened Values

  /** The library calls: JSON for a whole store, and the file cipher. */
  datatype FileCodec = FileCodec(
    marshal: Data -> Option<Bytes>,
    unmarshal: Bytes -> Option<Data>,
    encrypt: Bytes -> Option<Bytes>,
    decrypt: Bytes -> Option<Bytes>)

  /** The snapshot file and the temporary file beside it. */
  datatype Disk = Disk(file: Option<Bytes>, tmp: Option<Bytes>)

  /** The first system call of atomicWrite that fails, if any does. */
  datatype Fault = NoFault | OpenFails | LockFails | WriteFails(written: nat) | SyncFails | RenameFails

  /** Every state the disk goes through while data is being written. */
  function AtomicWrite(disk: Disk, data: Bytes, fault: Fault): seq<Disk> {
    var created := disk.(tmp := Some([]));
    match fault
    case OpenFails => []
    case LockFails => [created]
    case WriteFails(n) => [created, disk.(tmp := Some(if n < |data| then data[..n] else data))]
    case NoFault => [created, disk.(tmp := Some(data)), Disk(Some(data), None)]
    case _ => [created, disk.(tmp := Some(data))]
  }

  /** How many bytes a failed write leaves in the temporary file. */
  function Landed(data: Bytes, fault: Fault): nat {
    match fault
    case LockFails => 0
    case WriteFails(n) => if n < |data| then n else |data|
    case _ => |data|
  }

  /** Old or new: whatever fails, and wherever a crash falls, the snapshot file is the
      old one untouched or the new one whole, and new only if nothing failed; what is not yet
      in place is in the temporary file, which is gone once it is. Nothing at all happens if
      that file cannot be opened. */
  lemma OldOrNew(disk: Disk, data: Bytes, fault: Fault, i: nat)
    requires i < |AtomicWrite(disk, data, fault)|
    ensures !fault.OpenFails?
    ensures var d := AtomicWrite(disk, data, fault)[i];
            && (d.file == disk.file || d.file == Some(data))
            && (i < |AtomicWrite(disk, data, fault)| - 1 ==> d.file == disk.file)
            && (i == |AtomicWrite(disk, data, fault)| - 1 ==>
                  d.file == if fault.NoFault? then Some(data) else disk.file)
            && (i == |AtomicWrite(disk, data, fault)| - 1 ==>
                  if fault.NoFault? then d.tmp == None
                  else d.tmp.Some? && d.tmp.value <= data && |d.tmp.value| == Landed(data, fault))
            && (i < |AtomicWrite(disk, data, fault)| - 1 ==> d.tmp.Some? && d.tmp.value <= data)
  {
  }

  function Encode(c: FileCodec, data: Data): Option<Bytes> {
    match c.marshal(data)
    case None => None
    case Some(json) => c.encrypt(json)
  }

  function Decode(c: FileCodec, bytes: Bytes): Option<Data> {
    match c.decrypt(bytes)
    case None => None
    case Some(json) => c.unmarshal(json)
  }

  /** What Load returns: an empty store when there is no file, None for an error. */
  function Loaded(c: FileCodec, disk: Disk): Option<Data> {
    match disk.file
    case None => Some(map[])
    case Some(bytes) => Decode(c, bytes)
  }

  /** The first start: where there is no snapshot file, whatever temporary file may lie about,
      there is an empty store and no error. */
  lemma NothingSaved(c: FileCodec, tmp: Option<Bytes>)
    ensures Loaded(c, Disk(None, tmp)) == Some(map[])
  {
  }

  /** The cipher and JSON keep this store: what was encrypted is decrypted, what was
      marshalled is unmarshalled. */
  ghost predicate Keeps(c: FileCodec, data: Data) {
    && c.marshal(data).Some?
    && c.encrypt(c.marshal(data).value).Some?
    && c.decrypt(c.encrypt(c.marshal(data).value).value) == c.marshal(data)
    && c.unmarshal(c.marshal(data).value) == Some(data)
  }

  /** A store that the codec keeps is saved as the ciphertext of its JSON, and loads as itself. */
  lemma SavedLoads(c: FileCodec, data: Data, tmp: Option<Bytes>)
    requires Keeps(c, data)
    ensures Encode(c, data).Some? && c.decrypt(Encode(c, data).value) == c.marshal(data)
    ensures Loaded(c, Disk(Encode(c, data), tmp)) == Some(data)
  {
  }

  /** A file that is there loads if and only if it decrypts to the JSON of a store, of which
      then it is the image; and a store that does not marshal is not saved. */
  lemma LoadsIff(c: FileCodec, bytes: Bytes, tmp: Option<Bytes>, data: Data)
    ensures Loaded(c, Disk(Some(bytes), tmp)) == Some(data) <==>
            exists json :: c.decrypt(bytes) == Some(json) && c.unmarshal(json) == Some(data)
    ensures c.marshal(data).None? ==> Encode(c, data).None?
  {
  }

  class Engine {
    const codec: FileCodec
    var disk: Disk
    /** Every disk state so far, for a crash to fall on. */
    ghost var passed: seq<Disk>

    constructor (codec: FileCodec, disk: Disk)
      ensures this.codec == codec && this.disk == disk && passed == []
    {
      this.codec, this.disk := codec, disk;
      passed := [];
    }

    method Put(d: Disk)
      modifies this
      ensures disk == d && passed == old(passed) + [d]
    {
      disk := d;
      passed := passed + [d];
    }

    method AtomicWriteFile(data: Bytes, fault: Fault) returns (ok: bool)
      modifies this
      ensures ok == fault.NoFault?
      ensures passed == old(passed) + AtomicWrite(old(disk), data, fault)
      ensures disk == (old([disk]) + AtomicWrite(old(disk), data, fault))[|AtomicWrite(old(disk), data, fault)|]
    {
      if fault.OpenFails? { return false; }
      Put(disk.(tmp := Some([])));
      if fault.LockFails? { return false; }
      match fault {
        case WriteFails(n) =>
          Put(disk.(tmp := Some(if n < |data| then data[..n] else data)));
          return false;
        case _ =>
      }
      Put(disk.(tmp := Some(data)));
      if fault.SyncFails? || fault.RenameFails? { return false; }
      Put(Disk(disk.tmp, None));
      ok := true;
    }

    method Save(data: Data, fault: Fault) returns (ok: bool)
      modifies this
      ensures ok == (Encode(codec, data).Some? && fault.NoFault?)
      ensures disk.file == if ok then Encode(codec, data) else old(disk.file)
      ensures forall i :: |old(passed)| <= i < |passed| ==>
                passed[i].file == old(disk.file) || passed[i].file == Encode(codec, data)
      ensures old(passed) <= passed
    {
      var bytes := Encode(codec, data);
      if bytes.None? { return false; }
      ghost var before := disk;
      ok := AtomicWriteFile(bytes.value, fault);
      forall i | 0 <= i < |AtomicWrite(before, bytes.value, fault)|
        ensures AtomicWrite(before, bytes.value, fault)[i].file in {before.file, bytes}
      {
        OldOrNew(before, bytes.value, fault, i);
      }
    }

    method Load() returns (r: Option<Data>)
      ensures r == Loaded(codec, disk)
      ensures disk.file.None? ==> r == Some(map[])
    {
      r := if disk.file.None? then Some(map[]) else Decode(codec, disk.file.value);
    }

    /** What was saved is what is loaded next, by this engine or by one opened later on the
        same file: a save that fails leaves the store that was there. */
    method SaveThenLoad(data: Data, fault: Fault) returns (ok: bool, r: Option<Data>)
      modifies this
      ensures Keeps(codec, data) ==> ok == fault.NoFault?
      ensures Keeps(codec, data) && ok ==> r == Some(data)
      ensures !ok ==> r == Loaded(codec, old(disk))
    {
      ok := Save(data, fault);
      if Keeps(codec, data) { SavedLoads(codec, data, disk.tmp); }
      r := Load();
    }
  }
}
