/**
  Streaming authenticated encryption of backup artifacts: AES-GCM as in sections 7.1 and
  7.2 of NIST SP 800-38D, with the keystream and the tag as parameters, over a disk on
  which any operation may fail.
 */
module BackupCrypto {

  import opened Options

  type Bytes = seq<bv8>
  type Path = string
  type Files = map<Path, Bytes>
  type Tag = t: Bytes | |t| == 16 witness seq(16, i => 0)

  const MAGIC: Bytes := [0x53, 0x42, 0x53, 0x42, 0x4B, 0x50, 0x31, 0x00]  // "SBSBKP1\0"
  const NONCE_BYTES: nat := 12
  const TAG_BYTES: nat := 16
  const HEADER: nat := 20
  const CHUNK_BYTES: nat := 1024 * 1024

  /** Key, nonce and byte position give a keystream byte; key, nonce, additional data and
      ciphertext give a tag. */
  datatype Gcm = Gcm(stream: (Bytes, Bytes, nat) -> bv8, tag: (Bytes, Bytes, Bytes, Bytes) -> Tag)

  // ---------------------------------------------------------------- whole messages

  /** Encryption and decryption of a piece of the message that starts at position `from`. */
  function Crypt(g: Gcm, key: Bytes, nonce: Bytes, from: nat, data: Bytes): (r: Bytes)
    ensures |r| == |data|
  {
    seq(|data|, i requires 0 <= i < |data| => data[i] ^ g.stream(key, nonce, from + i))
  }

  lemma CryptTwice(g: Gcm, key: Bytes, nonce: Bytes, from: nat, data: Bytes)
    ensures Crypt(g, key, nonce, from, Crypt(g, key, nonce, from, data)) == data
  {
    forall i | 0 <= i < |data|
      ensures Crypt(g, key, nonce, from, Crypt(g, key, nonce, from, data))[i] == data[i]
    {
      XorTwice(data[i], g.stream(key, nonce, from + i));
    }
  }

  lemma XorTwice(a: bv8, b: bv8)
    ensures (a ^ b) ^ b == a
  {}

  lemma CryptAppend(g: Gcm, key: Bytes, nonce: Bytes, a: Bytes, b: Bytes)
    ensures Crypt(g, key, nonce, 0, a + b) == Crypt(g, key, nonce, 0, a) + Crypt(g, key, nonce, |a|, b)
  {}

  /** The artifact: magic, nonce, ciphertext, tag. */
  function Seal(g: Gcm, key: Bytes, nonce: Bytes, plain: Bytes): Bytes {
    var ct := Crypt(g, key, nonce, 0, plain);
    MAGIC + nonce + ct + g.tag(key, nonce, MAGIC, ct)
  }

  /** The artifact, byte by byte. */
  lemma SealMeaning(g: Gcm, key: Bytes, nonce: Bytes, plain: Bytes)
    requires |nonce| == 12
    ensures var out := Seal(g, key, nonce, plain);
      && |out| == 36 + |plain|
      && out[..8] == [0x53, 0x42, 0x53, 0x42, 0x4B, 0x50, 0x31, 0x00] && out[8..20] == nonce
      && (forall i :: 0 <= i < |plain| ==> out[20 + i] == plain[i] ^ g.stream(key, nonce, i))
      && out[|out| - 16..] == g.tag(key, nonce, out[..8], out[20..|out| - 16])
  {
    var out, ct := Seal(g, key, nonce, plain), Crypt(g, key, nonce, 0, plain);
    assert out[20..|out| - 16] == ct;
    forall i | 0 <= i < |plain| ensures out[20 + i] == plain[i] ^ g.stream(key, nonce, i) {
      assert out[20 + i] == ct[i];
    }
  }

  datatype Frame = Frame(nonce: Bytes, ct: Bytes, tag: Bytes)

  /** The parts of an artifact that is longer than an empty one and has the right magic. */
  function Unframe(file: Bytes): Option<Frame> {
    if |file| <= HEADER + TAG_BYTES || file[..8] != MAGIC then None
    else Some(Frame(file[8..HEADER], file[HEADER..|file| - TAG_BYTES], file[|file| - TAG_BYTES..]))
  }

  /** What an artifact means: its plaintext, if it is well framed and authentic. */
  function Open(g: Gcm, key: Bytes, file: Bytes): Option<Bytes> {
    match Unframe(file)
    case None => None
    case Some(f) =>
      if g.tag(key, f.nonce, MAGIC, f.ct) != f.tag then None else Some(Crypt(g, key, f.nonce, 0, f.ct))
  }

  /** Which files open, and to what, byte by byte. */
  lemma OpenMeaning(g: Gcm, key: Bytes, file: Bytes)
    ensures Open(g, key, file).Some? <==>
              && |file| > 36 && file[..8] == [0x53, 0x42, 0x53, 0x42, 0x4B, 0x50, 0x31, 0x00]
              && file[|file| - 16..] == g.tag(key, file[8..20], file[..8], file[20..|file| - 16])
    ensures Open(g, key, file).Some? ==>
              var out := Open(g, key, file).value;
              |out| == |file| - 36 &&
              forall i :: 0 <= i < |out| ==> out[i] == file[20 + i] ^ g.stream(key, file[8..20], i)
  {}

  /** Opening undoes sealing, except that the 36-byte artifact of an empty source is refused. */
  lemma OpenSeal(g: Gcm, key: Bytes, nonce: Bytes, plain: Bytes)
    requires |nonce| == NONCE_BYTES
    ensures Open(g, key, Seal(g, key, nonce, plain)) == if plain == [] then None else Some(plain)
    ensures |Seal(g, key, nonce, plain)| == HEADER + |plain| + TAG_BYTES
  {
    var file := Seal(g, key, nonce, plain);
    var ct := Crypt(g, key, nonce, 0, plain);
    if plain != [] {
      assert file[..8] == MAGIC;
      assert file[8..HEADER] == nonce;
      assert file[HEADER..|file| - TAG_BYTES] == ct;
      assert file[|file| - TAG_BYTES..] == g.tag(key, nonce, MAGIC, ct);
      CryptTwice(g, key, nonce, 0, plain);
    }
  }

  /** Only sealed non-empty messages open: sealing undoes opening. */
  lemma SealOpen(g: Gcm, key: Bytes, file: Bytes, plain: Bytes)
    ensures Open(g, key, file) == Some(plain) <==>
            plain != [] && exists nonce :: |nonce| == NONCE_BYTES && file == Seal(g, key, nonce, plain)
  {
    if Open(g, key, file) == Some(plain) {
      var f := Unframe(file).value;
      CryptTwice(g, key, f.nonce, 0, f.ct);
      assert file == file[..8] + f.nonce + f.ct + f.tag;
      assert file == Seal(g, key, f.nonce, plain);
    }
    forall nonce | plain != [] && |nonce| == NONCE_BYTES && file == Seal(g, key, nonce, plain)
      ensures Open(g, key, file) == Some(plain)
    {
      OpenSeal(g, key, nonce, plain);
    }
  }

  // ---------------------------------------------------------------- the disk

  function Min(a: nat, b: nat): nat { if a <= b then a else b }

  /** Every operation takes one tick; `faults` decides at which ticks the operation raises and
      `sizes` how many bytes a read or a failing write transfers. */
  class Disk {
    var files: Files
    var clock: nat
    ghost var seen: seq<Files>   // every state the disk has been in
    const faults: nat -> bool
    const sizes: nat -> nat

    constructor(initial: Files, faults: nat -> bool, sizes: nat -> nat)
      ensures files == initial && clock == 0 && seen == [initial]
      ensures this.faults == faults && this.sizes == sizes
    {
      files, clock, seen := initial, 0, [initial];
      this.faults, this.sizes := faults, sizes;
    }

    method Tick() returns (ok: bool)
      modifies this`clock
      ensures clock == old(clock) + 1 && ok == !faults(old(clock))
    {
      ok := !faults(clock);
      clock := clock + 1;
    }

    /** `unlink(missing_ok=True)`. */
    method Unlink(p: Path) returns (ok: bool)
      modifies this
      ensures clock == old(clock) + 1 && ok == !faults(old(clock))
      ensures files == if ok then old(files) - {p} else old(files)
      ensures files - {p} == old(files) - {p}
      ensures seen == old(seen) + [files]
    {
      ok := Tick();
      if ok { files := files - {p}; }
      seen := seen + [files];
    }

    /** `open("wb")`. */
    method Create(p: Path) returns (ok: bool)
      modifies this
      ensures clock == old(clock) + 1 && ok == !faults(old(clock))
      ensures files == if ok then old(files)[p := []] else old(files)
      ensures files - {p} == old(files) - {p}
      ensures seen == old(seen) + [files]
    {
      ok := Tick();
      if ok { files := files[p := []]; }
      seen := seen + [files];
    }

    /** `write(data)`; a write that raises may have written a part. */
    method Append(p: Path, data: Bytes) returns (ok: bool)
      requires p in files
      modifies this
      ensures clock == old(clock) + 1 && ok == !faults(old(clock))
      ensures p in files && files - {p} == old(files) - {p}
      ensures ok ==> files[p] == old(files[p]) + data
      ensures seen == old(seen) + [files]
    {
      var n := Min(sizes(clock), |data|);
      ok := Tick();
      files := files[p := files[p] + if ok then data else data[..n]];
      seen := seen + [files];
    }

    /** `from.replace(to)`. */
    method Replace(from: Path, to: Path) returns (ok: bool)
      requires from in files && from != to
      modifies this
      ensures clock == old(clock) + 1 && ok == !faults(old(clock))
      ensures files == if ok then old(files)[to := old(files)[from]] - {from} else old(files)
      ensures seen == old(seen) + [files]
    {
      ok := Tick();
      if ok { files := files[to := files[from]] - {from}; }
      seen := seen + [files];
    }

    /** `open("rb")`, also `stat`: fails on a missing file. */
    method OpenRead(p: Path) returns (ok: bool)
      modifies this`clock
      ensures clock == old(clock) + 1
      ensures ok <==> !faults(old(clock)) && p in files
    {
      ok := Tick();
      ok := ok && p in files;
    }

    /** `read(n)` at a position: at the end nothing, before it at least one byte. */
    method Read(p: Path, pos: nat, n: nat) returns (ok: bool, chunk: Bytes)
      requires p in files && pos <= |files[p]| && n > 0
      modifies this`clock
      ensures clock == old(clock) + 1 && ok == !faults(old(clock))
      ensures pos + |chunk| <= |files[p]| && |chunk| <= n && chunk == files[p][pos..pos + |chunk|]
      ensures ok ==> (chunk == [] <==> pos == |files[p]|)
    {
      var k := Min(1 + sizes(clock), Min(n, |files[p]| - pos));
      ok := Tick();
      chunk := files[p][pos..pos + k];
    }

    /** The buffered reads of the header and the tag, which are long enough to be complete. */
    method ReadExactly(p: Path, pos: nat, n: nat) returns (ok: bool, data: Bytes)
      requires p in files && pos + n <= |files[p]|
      modifies this`clock
      ensures clock == old(clock) + 1 && ok == !faults(old(clock))
      ensures data == files[p][pos..pos + n]
    {
      ok := Tick();
      data := files[p][pos..pos + n];
    }
  }

  // ---------------------------------------------------------------- the two functions

  datatype Error = AlreadyExists | Truncated | BadFormat | BadTag | Io | SetupIo | CleanupIo
  datatype Outcome = Done | Raised(error: Error)

  function PartOf(destination: Path): Path { destination + ".part" }

  /** A state in which nothing but the `.part` file differs from `before`, or in which the
      destination, absent before, holds the complete result. */
  ghost predicate Safe(before: Files, now: Files, destination: Path, result: Option<Bytes>) {
    && (forall p :: p != PartOf(destination) && p != destination ==>
          (p in now <==> p in before) && (p in now ==> now[p] == before[p]))
    && (destination in before ==> destination in now && now[destination] == before[destination])
    && (destination in now && destination !in before ==> result == Some(now[destination]))
  }

  ghost predicate SafeSince(seen: seq<Files>, start: nat, before: Files, destination: Path, result: Option<Bytes>) {
    start <= |seen| && forall i :: start <= i < |seen| ==> Safe(before, seen[i], destination, result)
  }

  ghost predicate NoFault(faults: nat -> bool, start: nat, end: nat) {
    forall t :: start <= t < end ==> !faults(t)
  }

  /** The result `encrypt_file` aims for. */
  function Sealed(g: Gcm, key: Bytes, nonce: Bytes, files: Files, source: Path): Option<Bytes> {
    if source in files then Some(Seal(g, key, nonce, files[source])) else None
  }

  function Opened(g: Gcm, key: Bytes, files: Files, source: Path): Option<Bytes> {
    if source in files then Open(g, key, files[source]) else None
  }

  /** How `encrypt_file` ends on a disk without faults: a source that is its own `.part` file is
      removed before it is opened. */
  function EncryptVerdict(files: Files, source: Path, destination: Path): Outcome {
    if destination in files then Raised(AlreadyExists)
    else if source !in files || source == PartOf(destination) then Raised(Io)
    else Done
  }

  /** How `decrypt_file` ends on a disk without faults. */
  function DecryptVerdict(g: Gcm, key: Bytes, files: Files, source: Path, destination: Path): Outcome {
    if destination in files then Raised(AlreadyExists)
    else if source !in files then Raised(SetupIo)
    else if |files[source]| <= HEADER + TAG_BYTES then Raised(Truncated)
    else if source == PartOf(destination) then Raised(Io)
    else if files[source][..8] != MAGIC then Raised(BadFormat)
    else if Open(g, key, files[source]).None? then Raised(BadTag)
    else Done
  }

  /** From position `start` on, every recorded state differs from `before` at most in p. */
  ghost predicate OnlyTouches(seen: seq<Files>, start: nat, before: Files, p: Path) {
    start <= |seen| && forall i :: start <= i < |seen| ==> seen[i] - {p} == before - {p}
  }

  lemma TouchingPartIsSafe(seen: seq<Files>, start: nat, before: Files, destination: Path, result: Option<Bytes>)
    requires OnlyTouches(seen, start, before, PartOf(destination)) && destination !in before
    ensures SafeSince(seen, start, before, destination, result)
  {
    PartIsOther(destination);
    forall i | start <= i < |seen| ensures Safe(before, seen[i], destination, result) {
      forall p | p != PartOf(destination)
        ensures (p in seen[i] <==> p in before) && (p in seen[i] ==> seen[i][p] == before[p])
      {
        assert p in seen[i] <==> p in seen[i] - {PartOf(destination)};
        assert p in before <==> p in before - {PartOf(destination)};
        if p in before { assert seen[i][p] == (seen[i] - {PartOf(destination)})[p]; }
      }
    }
  }

  /** The streaming loop of `encrypt_file`: read, encrypt, write until the source is exhausted. */
  method EncryptStream(disk: Disk, g: Gcm, key: Bytes, nonce: Bytes, source: Path, part: Path)
    returns (ok: bool, ct: Bytes)
    requires source in disk.files && part in disk.files && source != part
    modifies disk
    ensures part in disk.files && disk.files - {part} == old(disk.files) - {part}
    ensures ok ==> ct == Crypt(g, key, nonce, 0, old(disk.files)[source])
    ensures ok ==> disk.files[part] == old(disk.files)[part] + ct
    ensures old(disk.clock) <= disk.clock
    ensures ok <==> NoFault(disk.faults, old(disk.clock), disk.clock)
    ensures old(disk.seen) <= disk.seen
    ensures OnlyTouches(disk.seen, |old(disk.seen)|, old(disk.files), part)
  {
    ghost var before := disk.files;
    ghost var start := disk.clock;
    ghost var plain := before[source];
    assert disk.files - {part} == before - {part};
    ct := [];
    var chunk: Bytes;
    ok, chunk := disk.Read(source, 0, CHUNK_BYTES);
    while ok && chunk != []
      invariant part in disk.files && disk.files - {part} == before - {part}
      invariant |ct| + |chunk| <= |plain| && chunk == plain[|ct|..|ct| + |chunk|]
      invariant ok ==> (chunk == [] <==> |ct| == |plain|)
      invariant ct == Crypt(g, key, nonce, 0, plain[..|ct|])
      invariant disk.files[part] == before[part] + ct
      invariant start <= disk.clock && (ok <==> NoFault(disk.faults, start, disk.clock))
      invariant old(disk.seen) <= disk.seen && OnlyTouches(disk.seen, |old(disk.seen)|, before, part)
      decreases |plain| - |ct|
    {
      var piece := Crypt(g, key, nonce, |ct|, chunk);
      CryptAppend(g, key, nonce, plain[..|ct|], chunk);
      assert plain[..|ct|] + chunk == plain[..|ct| + |chunk|];
      ok := disk.Append(part, piece);
      if !ok { return; }
      ct := ct + piece;
      assert source in disk.files && disk.files[source] == plain by {
        assert source in disk.files - {part} && (disk.files - {part})[source] == (before - {part})[source];
      }
      ok, chunk := disk.Read(source, |ct|, CHUNK_BYTES);
    }
    if ok { assert plain[..|ct|] == plain; }
  }

  /** The body of the `try` in `encrypt_file`. */
  method EncryptBody(disk: Disk, g: Gcm, key: Bytes, nonce: Bytes, source: Path, destination: Path)
    returns (r: Outcome)
    requires |nonce| == NONCE_BYTES
    requires destination !in disk.files && PartOf(destination) !in disk.files
    modifies disk
    ensures r == Done || r == Raised(Io)
    ensures r.Done? ==> source in old(disk.files)
    ensures r.Done? ==>
              disk.files == old(disk.files)[destination := Seal(g, key, nonce, old(disk.files)[source])]
    ensures r.Raised? ==> disk.files - {PartOf(destination)} == old(disk.files)
    ensures old(disk.clock) <= disk.clock
    ensures r.Done? <==> source in old(disk.files) && NoFault(disk.faults, old(disk.clock), disk.clock)
    ensures SafeSince(disk.seen, |old(disk.seen)|, old(disk.files), destination,
              Sealed(g, key, nonce, old(disk.files), source))
    ensures old(disk.seen) <= disk.seen
  {
    var part := PartOf(destination);
    PartIsOther(destination);
    ghost var before := disk.files;
    assert before - {part} == before;
    var ok := disk.OpenRead(source);
    if !ok { return Raised(Io); }
    ok := WriteSealed(disk, g, key, nonce, source, part);
    TouchingPartIsSafe(disk.seen, |old(disk.seen)|, before, destination, Sealed(g, key, nonce, before, source));
    if !ok { return Raised(Io); }
    ok := disk.Replace(part, destination);
    if ok {
      assert disk.files == before[destination := Seal(g, key, nonce, before[source])];
      return Done;
    }
    return Raised(Io);
  }

  /** The two `with` files: header, ciphertext and tag go to the `.part` file. */
  method WriteSealed(disk: Disk, g: Gcm, key: Bytes, nonce: Bytes, source: Path, part: Path) returns (ok: bool)
    requires source in disk.files && part !in disk.files
    modifies disk
    ensures disk.files - {part} == old(disk.files)
    ensures ok ==> part in disk.files && disk.files[part] == Seal(g, key, nonce, old(disk.files)[source])
    ensures old(disk.clock) <= disk.clock
    ensures ok <==> NoFault(disk.faults, old(disk.clock), disk.clock)
    ensures old(disk.seen) <= disk.seen
    ensures OnlyTouches(disk.seen, |old(disk.seen)|, old(disk.files), part)
  {
    ghost var before := disk.files;
    assert before - {part} == before;
    ok := WriteHeader(disk, nonce, part);
    if !ok { return; }
    assert source in disk.files && disk.files[source] == before[source] by {
      assert source in disk.files - {part} && (disk.files - {part})[source] == (before - {part})[source];
    }
    var ct;
    ok, ct := EncryptStream(disk, g, key, nonce, source, part);
    if !ok { return; }
    ok := disk.Append(part, g.tag(key, nonce, MAGIC, ct));
    if !ok { return; }
    ok := disk.Tick();  // closing flushes
  }

  method WriteHeader(disk: Disk, nonce: Bytes, part: Path) returns (ok: bool)
    modifies disk
    ensures disk.files - {part} == old(disk.files) - {part}
    ensures ok ==> part in disk.files && disk.files[part] == MAGIC + nonce
    ensures old(disk.clock) <= disk.clock
    ensures ok <==> NoFault(disk.faults, old(disk.clock), disk.clock)
    ensures old(disk.seen) <= disk.seen
    ensures OnlyTouches(disk.seen, |old(disk.seen)|, old(disk.files), part)
  {
    ok := disk.Create(part);
    if !ok { return; }
    ok := disk.Append(part, MAGIC);
    if !ok { return; }
    ok := disk.Append(part, nonce);
  }

  /** States recorded while the `.part` file was known to be absent, seen from before. */
  lemma SafeAfterUnlink(first: seq<Files>, seen: seq<Files>, start: nat, before: Files, destination: Path,
                        result: Option<Bytes>, final: Option<Bytes>)
    requires first <= seen && |first| == start + 1 && SafeSince(first, start, before, destination, final)
    requires SafeSince(seen, start + 1, before - {PartOf(destination)}, destination, result)
    requires result.Some? ==> final == result
    ensures SafeSince(seen, start, before, destination, final)
  {
    PartIsOther(destination);
    assert seen[start] == first[start];
    forall i | start < i < |seen| ensures Safe(before, seen[i], destination, final) {
      assert Safe(before - {PartOf(destination)}, seen[i], destination, result);
    }
  }

  lemma SafeCleanup(seen: seq<Files>, start: nat, before: Files, now: Files, destination: Path, result: Option<Bytes>)
    requires SafeSince(seen, start, before, destination, result)
    requires destination !in before && now - {PartOf(destination)} == before - {PartOf(destination)}
    ensures SafeSince(seen + [now], start, before, destination, result)
  {
    TouchingPartIsSafe([now], 0, before, destination, result);
    assert [now][0] == now;
  }

  lemma PartIsOther(destination: Path)
    ensures PartOf(destination) != destination
  {
    assert |PartOf(destination)| == |destination| + 5;
  }

  /** `encrypt_file`, with the random nonce as a parameter. */
  method EncryptFile(disk: Disk, g: Gcm, key: Bytes, nonce: Bytes, source: Path, destination: Path)
    returns (r: Outcome)
    requires |nonce| == NONCE_BYTES
    modifies disk
    // the destination holds the sealed source and the rest of the disk is as it was
    ensures r.Done? ==> source in old(disk.files) && source != PartOf(destination)
    ensures r.Done? ==> disk.files == (old(disk.files) - {PartOf(destination)})
                                      [destination := Seal(g, key, nonce, old(disk.files)[source])]
    // byte by byte: magic, nonce, the source under the keystream, the tag of it all
    ensures r.Done? ==>
              destination in disk.files && destination + ".part" !in disk.files &&
              var plain, out := old(disk.files)[source], disk.files[destination];
              && |out| == 36 + |plain|
              && out[..8] == [0x53, 0x42, 0x53, 0x42, 0x4B, 0x50, 0x31, 0x00] && out[8..20] == nonce
              && (forall i :: 0 <= i < |plain| ==> out[20 + i] == plain[i] ^ g.stream(key, nonce, i))
              && out[|out| - 16..] == g.tag(key, nonce, out[..8], out[20..|out| - 16])
    // an existing destination is refused untouched, and only then nothing at all happens
    ensures r == Raised(AlreadyExists) <==> destination in old(disk.files)
    ensures r == Raised(AlreadyExists) ==> disk.files == old(disk.files) && disk.clock == old(disk.clock)
    // after an exception no file but the `.part` differs, and that one is gone unless the
    // handler itself, or a step before the `try`, failed
    ensures r.Raised? ==> disk.files - {PartOf(destination)} == old(disk.files) - {PartOf(destination)}
    ensures r == Raised(Io) ==> PartOf(destination) !in disk.files
    ensures r == Raised(SetupIo) ==> disk.files == old(disk.files)
    ensures r.Raised? ==> r.error in {AlreadyExists, SetupIo, Io, CleanupIo}
    // success is exactly: free destination, a source that is not the `.part` file, no fault
    ensures old(disk.clock) <= disk.clock
    ensures r.Done? <==> EncryptVerdict(old(disk.files), source, destination).Done? &&
                         NoFault(disk.faults, old(disk.clock), disk.clock)
    // and without a fault no outcome is open: a source that is the `.part` file is lost
    ensures NoFault(disk.faults, old(disk.clock), disk.clock) ==>
              && r == EncryptVerdict(old(disk.files), source, destination)
              && (destination !in old(disk.files) && source == PartOf(destination) ==> source !in disk.files)
    ensures old(disk.seen) <= disk.seen
    ensures SafeSince(disk.seen, |old(disk.seen)|, old(disk.files), destination,
              Sealed(g, key, nonce, old(disk.files), source))
  {
    if destination in disk.files { return Raised(AlreadyExists); }
    var ok := disk.Tick();  // mkdir(parents=True, exist_ok=True)
    if !ok { return Raised(SetupIo); }
    var part := PartOf(destination);
    PartIsOther(destination);
    ok := disk.Unlink(part);
    ghost var first := disk.seen;
    TouchingPartIsSafe(first, |old(disk.seen)|, old(disk.files), destination,
      Sealed(g, key, nonce, old(disk.files), source));
    if !ok { return Raised(SetupIo); }
    r := EncryptBody(disk, g, key, nonce, source, destination);
    if r.Done? { SealMeaning(g, key, nonce, old(disk.files)[source]); }
    SafeAfterUnlink(first, disk.seen, |old(disk.seen)|, old(disk.files), destination,
      Sealed(g, key, nonce, old(disk.files) - {part}, source), Sealed(g, key, nonce, old(disk.files), source));
    if r.Raised? {
      ghost var body := disk.seen;
      ok := disk.Unlink(part);
      SafeCleanup(body, |old(disk.seen)|, old(disk.files), disk.files, destination,
        Sealed(g, key, nonce, old(disk.files), source));
      if !ok { r := Raised(CleanupIo); }
    }
  }

  /** The streaming loop of `decrypt_file`: exactly `remaining` bytes behind the header. */
  method DecryptStream(disk: Disk, g: Gcm, key: Bytes, nonce: Bytes, source: Path, length: nat, part: Path)
    returns (ok: bool, ct: Bytes)
    requires source in disk.files && part in disk.files && source != part && disk.files[part] == []
    requires |disk.files[source]| == HEADER + length + TAG_BYTES
    modifies disk
    ensures part in disk.files && disk.files - {part} == old(disk.files) - {part}
    ensures ok ==> ct == old(disk.files)[source][HEADER..HEADER + length]
    ensures ok ==> disk.files[part] == Crypt(g, key, nonce, 0, ct)
    ensures old(disk.clock) <= disk.clock
    ensures ok <==> NoFault(disk.faults, old(disk.clock), disk.clock)
    ensures old(disk.seen) <= disk.seen
    ensures OnlyTouches(disk.seen, |old(disk.seen)|, old(disk.files), part)
  {
    ghost var before := disk.files;
    ghost var start := disk.clock;
    ghost var body := before[source][HEADER..HEADER + length];
    ok, ct := true, [];
    var remaining := length;
    while remaining > 0
      invariant part in disk.files && disk.files - {part} == before - {part}
      invariant remaining >= 0 && |ct| + remaining == length
      invariant ct == body[..|ct|]
      invariant disk.files[part] == Crypt(g, key, nonce, 0, ct)
      invariant ok && start <= disk.clock && NoFault(disk.faults, start, disk.clock)
      invariant old(disk.seen) <= disk.seen && OnlyTouches(disk.seen, |old(disk.seen)|, before, part)
    {
      assert source in disk.files && disk.files[source] == before[source] by {
        assert source in disk.files - {part} && (disk.files - {part})[source] == (before - {part})[source];
      }
      var chunk: Bytes;
      ok, chunk := disk.Read(source, HEADER + |ct|, Min(CHUNK_BYTES, remaining));
      if !ok { return; }
      if chunk == [] { assert false; }  // the file is as long as its size said
      remaining := remaining - |chunk|;
      CryptAppend(g, key, nonce, ct, chunk);
      assert ct + chunk == body[..|ct| + |chunk|];
      ok := disk.Append(part, Crypt(g, key, nonce, |ct|, chunk));
      if !ok { return; }
      ct := ct + chunk;
    }
  }

  /** The body of the `try` in `decrypt_file`; `size` was read before it. */
  method DecryptBody(disk: Disk, g: Gcm, key: Bytes, source: Path, size: nat, destination: Path)
    returns (r: Outcome)
    requires destination !in disk.files && PartOf(destination) !in disk.files
    requires size > HEADER + TAG_BYTES && (source in disk.files ==> size == |disk.files[source]|)
    modifies disk
    ensures r.Done? || r == Raised(Io) || r == Raised(BadFormat) || r == Raised(BadTag)
    ensures r.Done? ==> Opened(g, key, old(disk.files), source).Some?
    ensures r.Done? ==>
              disk.files == old(disk.files)[destination := Opened(g, key, old(disk.files), source).value]
    ensures r.Raised? ==> disk.files - {PartOf(destination)} == old(disk.files)
    ensures old(disk.clock) <= disk.clock
    ensures r == Raised(Io) <==> source !in old(disk.files) || !NoFault(disk.faults, old(disk.clock), disk.clock)
    ensures r == Raised(BadFormat) ==> Unframe(old(disk.files)[source]).None?
    ensures r == Raised(BadTag) ==>
              Unframe(old(disk.files)[source]).Some? && Opened(g, key, old(disk.files), source).None?
    ensures SafeSince(disk.seen, |old(disk.seen)|, old(disk.files), destination,
              Opened(g, key, old(disk.files), source))
    ensures old(disk.seen) <= disk.seen
  {
    var part := PartOf(destination);
    PartIsOther(destination);
    ghost var before := disk.files;
    assert before - {part} == before;
    var nonce, tag;
    r, nonce, tag := ReadFrame(disk, source, size);
    if r.Raised? { return; }
    r := WriteOpened(disk, g, key, nonce, tag, source, part);
    TouchingPartIsSafe(disk.seen, |old(disk.seen)|, before, destination, Opened(g, key, before, source));
    if r.Raised? { return; }
    var ok := disk.Replace(part, destination);
    if ok {
      assert disk.files == before[destination := Opened(g, key, before, source).value];
      return Done;
    }
    return Raised(Io);
  }

  /** Open the source, check the magic, fetch nonce and tag. */
  method ReadFrame(disk: Disk, source: Path, size: nat) returns (r: Outcome, nonce: Bytes, tag: Bytes)
    requires size > HEADER + TAG_BYTES && (source in disk.files ==> size == |disk.files[source]|)
    modifies disk`clock
    ensures r == Done || r == Raised(Io) || r == Raised(BadFormat)
    ensures old(disk.clock) <= disk.clock
    ensures r == Raised(Io) <==> source !in disk.files || !NoFault(disk.faults, old(disk.clock), disk.clock)
    ensures r == Raised(BadFormat) ==> Unframe(disk.files[source]).None?
    ensures r == Done ==>
              Unframe(disk.files[source]) ==
              Some(Frame(nonce, disk.files[source][HEADER..size - TAG_BYTES], tag))
  {
    nonce, tag := [], [];
    var ok := disk.OpenRead(source);
    if !ok { return Raised(Io), nonce, tag; }
    var magic: Bytes;
    ok, magic := disk.ReadExactly(source, 0, |MAGIC|);
    if !ok { return Raised(Io), nonce, tag; }
    ghost var file := disk.files[source];
    assert magic == file[..8];
    if magic != MAGIC { return Raised(BadFormat), nonce, tag; }
    ok, nonce := disk.ReadExactly(source, |MAGIC|, NONCE_BYTES);
    if !ok { return Raised(Io), nonce, tag; }
    ok, tag := disk.ReadExactly(source, size - TAG_BYTES, TAG_BYTES);
    if !ok { return Raised(Io), nonce, tag; }
    assert nonce == file[8..HEADER] && tag == file[size - TAG_BYTES..];
    return Done, nonce, tag;
  }

  /** Decrypt into the `.part` file and let `finalize` check the tag. */
  method WriteOpened(disk: Disk, g: Gcm, key: Bytes, nonce: Bytes, tag: Bytes, source: Path, part: Path)
    returns (r: Outcome)
    requires source in disk.files && part !in disk.files
    requires |disk.files[source]| > HEADER + TAG_BYTES
    requires Unframe(disk.files[source]) ==
             Some(Frame(nonce, disk.files[source][HEADER..|disk.files[source]| - TAG_BYTES], tag))
    modifies disk
    ensures r == Done || r == Raised(Io) || r == Raised(BadTag)
    ensures disk.files - {part} == old(disk.files)
    ensures r.Done? ==> part in disk.files && Opened(g, key, old(disk.files), source) == Some(disk.files[part])
    ensures r == Raised(BadTag) ==> Opened(g, key, old(disk.files), source).None?
    ensures old(disk.clock) <= disk.clock
    ensures r == Raised(Io) <==> !NoFault(disk.faults, old(disk.clock), disk.clock)
    ensures old(disk.seen) <= disk.seen
    ensures OnlyTouches(disk.seen, |old(disk.seen)|, old(disk.files), part)
  {
    ghost var before := disk.files;
    assert before - {part} == before;
    var remaining := |disk.files[source]| - HEADER - TAG_BYTES;
    var ok := disk.Create(part);
    if !ok { return Raised(Io); }
    assert source in disk.files && disk.files[source] == before[source] by {
      assert source in disk.files - {part} && (disk.files - {part})[source] == (before - {part})[source];
    }
    var ct;
    ok, ct := DecryptStream(disk, g, key, nonce, source, remaining, part);
    if !ok { return Raised(Io); }
    if g.tag(key, nonce, MAGIC, ct) != tag { return Raised(BadTag); }
    ok := disk.Tick();  // closing flushes
    if !ok { return Raised(Io); }
    return Done;
  }

  /** `decrypt_file`. */
  method DecryptFile(disk: Disk, g: Gcm, key: Bytes, source: Path, destination: Path) returns (r: Outcome)
    modifies disk
    ensures r.Done? ==> Opened(g, key, old(disk.files), source).Some?
    ensures r.Done? ==> disk.files == (old(disk.files) - {PartOf(destination)})
                                      [destination := Opened(g, key, old(disk.files), source).value]
    // byte by byte: the ciphertext under the keystream, of an authentic file
    ensures r.Done? ==>
              destination in disk.files && destination + ".part" !in disk.files && source in old(disk.files) &&
              var file, out := old(disk.files)[source], disk.files[destination];
              && |file| > 36 && |out| == |file| - 36
              && file[..8] == [0x53, 0x42, 0x53, 0x42, 0x4B, 0x50, 0x31, 0x00]
              && file[|file| - 16..] == g.tag(key, file[8..20], file[..8], file[20..|file| - 16])
              && (forall i :: 0 <= i < |out| ==> out[i] == file[20 + i] ^ g.stream(key, file[8..20], i))
    ensures r == Raised(AlreadyExists) <==> destination in old(disk.files)
    ensures r == Raised(AlreadyExists) ==> disk.files == old(disk.files) && disk.clock == old(disk.clock)
    ensures r.Raised? ==> disk.files - {PartOf(destination)} == old(disk.files) - {PartOf(destination)}
    ensures r == Raised(Io) || r == Raised(BadFormat) || r == Raised(BadTag) ==> PartOf(destination) !in disk.files
    ensures r == Raised(SetupIo) || r == Raised(Truncated) ==> disk.files == old(disk.files)
    // without a fault the outcome says exactly what the source is
    ensures old(disk.clock) <= disk.clock
    ensures r.Done? <==> DecryptVerdict(g, key, old(disk.files), source, destination).Done? &&
                         NoFault(disk.faults, old(disk.clock), disk.clock)
    ensures NoFault(disk.faults, old(disk.clock), disk.clock) ==>
              r == DecryptVerdict(g, key, old(disk.files), source, destination)
    ensures NoFault(disk.faults, old(disk.clock), disk.clock) && destination !in old(disk.files) &&
            source in old(disk.files) && source != destination + ".part" ==>
              var file := old(disk.files)[source];
              var magic := |file| > 36 && file[..8] == [0x53, 0x42, 0x53, 0x42, 0x4B, 0x50, 0x31, 0x00];
              && (r == Raised(Truncated) <==> |file| <= 36)
              && (r == Raised(BadFormat) <==> |file| > 36 && !magic)
              && (r == Raised(BadTag) <==>
                    magic && file[|file| - 16..] != g.tag(key, file[8..20], file[..8], file[20..|file| - 16]))
    ensures old(disk.seen) <= disk.seen
    ensures SafeSince(disk.seen, |old(disk.seen)|, old(disk.files), destination,
              Opened(g, key, old(disk.files), source))
  {
    if destination in disk.files { return Raised(AlreadyExists); }
    var ok := disk.OpenRead(source);  // stat
    if !ok { return Raised(SetupIo); }
    var size := |disk.files[source]|;
    if size <= HEADER + TAG_BYTES { return Raised(Truncated); }
    var part := PartOf(destination);
    PartIsOther(destination);
    ok := disk.Unlink(part);
    ghost var first := disk.seen;
    TouchingPartIsSafe(first, |old(disk.seen)|, old(disk.files), destination, Opened(g, key, old(disk.files), source));
    if !ok { return Raised(SetupIo); }
    r := DecryptBody(disk, g, key, source, size, destination);
    if source in old(disk.files) { OpenMeaning(g, key, old(disk.files)[source]); }
    SafeAfterUnlink(first, disk.seen, |old(disk.seen)|, old(disk.files), destination,
      Opened(g, key, old(disk.files) - {part}, source), Opened(g, key, old(disk.files), source));
    if r.Raised? {
      ghost var body := disk.seen;
      ok := disk.Unlink(part);
      SafeCleanup(body, |old(disk.seen)|, old(disk.files), disk.files, destination,
        Opened(g, key, old(disk.files), source));
      if !ok { r := Raised(CleanupIo); }
    }
  }

  /** The two functions in sequence, over every split of the reads: what comes back is the source,
      and without a fault it does come back, unless it was empty. */
  method BackupAndRestore(disk: Disk, g: Gcm, key: Bytes, nonce: Bytes, source: Path, archive: Path, restored: Path)
    returns (e: Outcome, d: Outcome)
    requires |nonce| == NONCE_BYTES
    modifies disk
    ensures e.Done? ==> source in old(disk.files)
    ensures e.Done? && d.Done? ==> restored in disk.files && disk.files[restored] == old(disk.files)[source]
    ensures e.Done? && old(disk.files)[source] == [] ==> !d.Done?
    ensures e.Done? && old(disk.files)[source] != [] && restored !in old(disk.files) &&
            restored != archive && PartOf(restored) != archive && NoFault(disk.faults, old(disk.clock), disk.clock) ==>
              d.Done?
  {
    ghost var before := disk.files;
    e := EncryptFile(disk, g, key, nonce, source, archive);
    d := Raised(SetupIo);
    if e.Done? {
      OpenSeal(g, key, nonce, before[source]);
      d := DecryptFile(disk, g, key, archive, restored);
    }
  }
}
