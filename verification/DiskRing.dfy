/**
 A capture written to a ring of files (src/capture/ring.rs): a file is closed when it is
 full, and the next one takes the place of the oldest.
 */
module DiskRing {
  import opened Prelude

  datatype Packet = Packet(link: LinkType, origLen: nat, data: seq<byte>)

  /** Blocks of a pcapng file. */
  datatype Block = Section | Interface(link: LinkType) | Enhanced(packet: Packet)

  const MIB: nat := 1024 * 1024

  /** Length of an enhanced packet block without options: 32 bytes around the padded data. */
  function BlockLen(p: Packet): (n: nat)
    ensures |p.data| + 32 <= n < |p.data| + 36 && n % 4 == 0
  {
    32 + (|p.data| + 3) / 4 * 4
  }

  function DataLink(link: LinkType): LinkType {
    if link.LinuxSll? || link.Null? then link else Ethernet
  }

  function AtLeastOne(n: nat): nat {
    if n == 0 then 1 else n
  }

  function Size(ps: seq<Packet>): nat {
    if ps == [] then 0 else Size(ps[..|ps| - 1]) + BlockLen(ps[|ps| - 1])
  }

  function Blocks(ps: seq<Packet>): seq<Block> {
    seq(|ps|, i requires 0 <= i < |ps| => Enhanced(ps[i]))
  }

  /** A file of the ring: the section header, then, once there is a packet, the interface of the first one. */
  function FileOf(ps: seq<Packet>): seq<Block> {
    if ps == [] then [Section] else [Section, Interface(DataLink(ps[0].link))] + Blocks(ps)
  }

  // ----- What a history of packets amounts to -----

  /** The packets by file generation, oldest first. */
  function Generations(written: seq<Packet>, maxBytes: nat): (g: seq<seq<Packet>>)
    ensures g != []
  {
    if written == [] then [[]]
    else
      var g := Generations(written[..|written| - 1], maxBytes);
      var last, p := g[|g| - 1], written[|written| - 1];
      if maxBytes <= Size(last) then g + [[p]] else g[..|g| - 1] + [last + [p]]
  }

  type Directory = map<nat, seq<Block>>

  /** The directory after the generations were written, each to the slot of its number, over the files an
      earlier session with the same prefix left. */
  function Stored(before: Directory, g: seq<seq<Packet>>, maxFiles: nat): Directory
    requires 0 < maxFiles
  {
    if g == [] then before
    else Stored(before, g[..|g| - 1], maxFiles)[(|g| - 1) % maxFiles := FileOf(g[|g| - 1])]
  }

  class DiskRing {
    const maxBytes: nat
    const maxFiles: nat
    var currentIdx: nat
    var currentBytes: nat
    var writer: Option<nat>
    var wroteIface: bool
    var files: Directory
    ghost const before: Directory
    ghost var written: seq<Packet>

    ghost predicate Valid()
      reads this
    {
      var g := Generations(written, maxBytes);
      && 0 < maxBytes && 0 < maxFiles
      && currentIdx == |g|
      && currentBytes == Size(g[|g| - 1])
      && writer == Some((|g| - 1) % maxFiles)
      && wroteIface == (g[|g| - 1] != [])
      && files == Stored(before, g, maxFiles)
    }

    constructor (maxMb: nat, maxFiles: nat, existing: Directory)
      ensures Valid() && written == [] && before == existing
      ensures this.maxBytes == (if maxMb == 0 then 1_048_576 else maxMb * 1_048_576)
      ensures this.maxFiles == (if maxFiles == 0 then 1 else maxFiles)
      ensures files == existing[0 := [Section]] && writer == Some(0) && currentBytes == 0
    {
      this.maxBytes := AtLeastOne(maxMb) * MIB;
      this.maxFiles := AtLeastOne(maxFiles);
      currentIdx := 0;
      currentBytes := 0;
      writer := None;
      wroteIface := false;
      files := existing;
      before := existing;
      written := [];
      new;
      Rotate();
      StoredNext(before, [], [], this.maxFiles);
      assert Generations(written, this.maxBytes) == [[]] == [] + [[]];
    }

    /** Opens the next file of the ring, emptying it if it is there. */
    method Rotate()
      requires 0 < maxFiles
      modifies this
      ensures currentIdx == old(currentIdx) + 1 && currentBytes == 0 && !wroteIface
      ensures writer == Some(old(currentIdx) % maxFiles)
      ensures files == old(files)[old(currentIdx) % maxFiles := [Section]]
      ensures written == old(written)
    {
      writer := None;
      wroteIface := false;
      currentBytes := 0;
      var slot := currentIdx % maxFiles;
      files := files[slot := []];
      files := files[slot := files[slot] + [Section]];
      assert files[slot] == [Section];
      assert files == old(files)[slot := [Section]];
      writer := Some(slot);
      currentIdx := currentIdx + 1;
    }

    method WritePacket(p: Packet)
      requires Valid()
      modifies this
      ensures Valid() && written == old(written) + [p]
    {
      hide Generations, Stored, Size, FileOf, BlockLen;
      ghost var now := Generations(written, maxBytes);
      if maxBytes <= currentBytes {
        Rotate();
        StoredNext(before, now, [], maxFiles);
        now := now + [[]];
        EmptyFile();
      }
      ghost var last := now[|now| - 1];
      StoredLast(before, now, maxFiles);
      Append(p, last);
      StoredReplace(before, now, last + [p], maxFiles);
      GenerationsNext(written, p, maxBytes);
      SizeGrows(last, p);
      written := written + [p];
      assert last == [] ==> last + [p] == [p];
      assert now[..|now| - 1] + [last + [p]] == Generations(written, maxBytes);
    }

    /** The packet goes to the file being written, behind an interface block if it is the first. */
    method Append(p: Packet, ghost last: seq<Packet>)
      requires writer.Some? && writer.value in files && files[writer.value] == FileOf(last)
      requires wroteIface == (last != [])
      modifies this`files, this`wroteIface, this`currentBytes
      ensures files == old(files)[writer.value := FileOf(last + [p])] && wroteIface
      ensures currentBytes == old(currentBytes) + BlockLen(p)
    {
      hide FileOf, BlockLen;
      var w := writer.value;
      FileGrows(last, p);
      if !wroteIface {
        files := files[w := files[w] + [Interface(DataLink(p.link))]];
        wroteIface := true;
      }
      files := files[w := files[w] + [Enhanced(p)]];
      currentBytes := currentBytes + BlockLen(p);
      assert files == old(files)[w := FileOf(last + [p])];
    }
  }

  lemma EmptyFile()
    ensures Size([]) == 0 && FileOf([]) == [Section]
  {
  }

  /** A file with packets: the section header, one interface block with the link layer of the first
      packet (Ethernet unless it is cooked capture or loopback), and the packets in their order. */
  lemma FileShape(ps: seq<Packet>, i: nat)
    requires i < |ps|
    ensures var f, link := FileOf(ps), ps[0].link;
      && |f| == |ps| + 2 && f[0] == Section && f[i + 2] == Enhanced(ps[i])
      && f[1] == Interface(match link case LinuxSll => LinuxSll case Null => Null case _ => Ethernet)
  {
  }

  lemma StoredNext(before: Directory, g: seq<seq<Packet>>, ps: seq<Packet>, maxFiles: nat)
    requires 0 < maxFiles
    ensures Stored(before, g + [ps], maxFiles) == Stored(before, g, maxFiles)[|g| % maxFiles := FileOf(ps)]
  {
    assert (g + [ps])[..|g|] == g;
  }

  lemma StoredLast(before: Directory, g: seq<seq<Packet>>, maxFiles: nat)
    requires 0 < maxFiles && g != []
    ensures var slot := (|g| - 1) % maxFiles;
      slot in Stored(before, g, maxFiles) && Stored(before, g, maxFiles)[slot] == FileOf(g[|g| - 1])
  {
  }

  lemma StoredReplace(before: Directory, g: seq<seq<Packet>>, ps: seq<Packet>, maxFiles: nat)
    requires 0 < maxFiles && g != []
    ensures Stored(before, g[..|g| - 1] + [ps], maxFiles) == Stored(before, g, maxFiles)[(|g| - 1) % maxFiles := FileOf(ps)]
  {
    StoredNext(before, g[..|g| - 1], ps, maxFiles);
  }

  lemma FileGrows(ps: seq<Packet>, p: Packet)
    ensures FileOf(ps + [p]) ==
      (if ps == [] then FileOf(ps) + [Interface(DataLink(p.link))] else FileOf(ps)) + [Enhanced(p)]
  {
    assert Blocks(ps + [p]) == Blocks(ps) + [Enhanced(p)];
  }

  lemma SizeGrows(ps: seq<Packet>, p: Packet)
    ensures Size(ps + [p]) == Size(ps) + BlockLen(p)
  {
    assert (ps + [p])[..|ps|] == ps;
  }

  lemma GenerationsNext(written: seq<Packet>, p: Packet, maxBytes: nat)
    ensures var g := Generations(written, maxBytes);
      var last := g[|g| - 1];
      Generations(written + [p], maxBytes) ==
      if maxBytes <= Size(last) then g + [[p]] else g[..|g| - 1] + [last + [p]]
  {
    assert (written + [p])[..|written|] == written;
  }

  // ----- Retention -----

  /** Every packet written is in exactly one generation, in the order of writing. */
  lemma {:induction false} GenerationsKeepAll(written: seq<Packet>, maxBytes: nat)
    ensures Flatten(Generations(written, maxBytes)) == written
  {
    hide Generations, Flatten;
    if written == [] {
      NoGenerations(maxBytes);
      NoneFlat();
    } else {
      var before, p := written[..|written| - 1], written[|written| - 1];
      assert written == before + [p];
      GenerationsKeepAll(before, maxBytes);
      GenerationsNext(before, p, maxBytes);
      var g := Generations(before, maxBytes);
      var init, last := g[..|g| - 1], g[|g| - 1];
      FlattenEnd(g, [p]);
      FlattenEnd(init, last);
      FlattenEnd(init, last + [p]);
      assert g == init + [last];
      AppendAssoc(Flatten(init), last, [p]);
    }
  }

  lemma NoneFlat()
    ensures Flatten<Packet>([[]]) == []
  {
  }

  lemma FlattenEnd(g: seq<seq<Packet>>, ps: seq<Packet>)
    ensures Flatten(g + [ps]) == Flatten(g) + ps
  {
    var one := [ps];
    FlattenAppend(g, one);
    assert one[1..] == [] && Flatten(one[1..]) == [];
    assert Flatten(one) == ps + [];
  }

  /** A file was not full before its last packet. */
  predicate OpenUntilLast(ps: seq<Packet>, maxBytes: nat) {
    ps != [] ==> Size(ps[..|ps| - 1]) < maxBytes
  }

  ghost predicate ClosedFull(g: seq<seq<Packet>>, maxBytes: nat) {
    && (forall i :: 0 <= i < |g| ==> OpenUntilLast(g[i], maxBytes))
    && (forall i :: 0 <= i < |g| - 1 ==> maxBytes <= Size(g[i]))
  }

  /** A file is closed by the first packet that finds it full, and never before. */
  lemma {:induction false} ClosedWhenFull(written: seq<Packet>, maxBytes: nat)
    requires 0 < maxBytes
    ensures ClosedFull(Generations(written, maxBytes), maxBytes)
  {
    hide Generations, Size;
    if written == [] {
      NoGenerations(maxBytes);
    } else {
      var before, p := written[..|written| - 1], written[|written| - 1];
      ClosedWhenFull(before, maxBytes);
      assert written == before + [p];
      GenerationsNext(before, p, maxBytes);
      var g := Generations(before, maxBytes);
      var last := g[|g| - 1];
      EmptyFile();
      assert (last + [p])[..|last|] == last;
      assert [p][..0] == [];
    }
  }

  lemma NoGenerations(maxBytes: nat)
    ensures Generations([], maxBytes) == [[]]
  {
  }

  lemma FileSizes(written: seq<Packet>, maxBytes: nat, i: nat)
    requires 0 < maxBytes && i < |Generations(written, maxBytes)| - 1
    ensures var ps := Generations(written, maxBytes)[i];
      ps != [] && maxBytes <= Size(ps) < maxBytes + BlockLen(ps[|ps| - 1])
  {
    ClosedWhenFull(written, maxBytes);
    var ps := Generations(written, maxBytes)[i];
    assert OpenUntilLast(ps, maxBytes);
  }

  lemma Multiples(d: int, k: nat)
    ensures 0 < d ==> k <= d * k
    ensures d < 0 ==> d * k + k <= 0
  {
  }

  lemma SlotsApart(g: nat, h: nat, k: nat)
    requires 0 < k && g < h < g + k
    ensures g % k != h % k
  {
    if g % k == h % k {
      assert h - g == (h / k - g / k) * k;
      Multiples(h / k - g / k, k);
    }
  }

  function Oldest(generations: nat, maxFiles: nat): (first: nat)
    ensures first <= generations
  {
    if maxFiles <= generations then generations - maxFiles else 0
  }

  lemma StoredStep(before: Directory, g: seq<seq<Packet>>, maxFiles: nat)
    requires 0 < maxFiles && g != []
    ensures Stored(before, g, maxFiles) ==
      Stored(before, g[..|g| - 1], maxFiles)[(|g| - 1) % maxFiles := FileOf(g[|g| - 1])]
  {
  }

  /** Each of the last generations still has its file, as it was written. */
  lemma {:induction false} LastAreStored(before: Directory, g: seq<seq<Packet>>, maxFiles: nat, i: nat)
    requires 0 < maxFiles && Oldest(|g|, maxFiles) <= i < |g|
    ensures i % maxFiles in Stored(before, g, maxFiles) && Stored(before, g, maxFiles)[i % maxFiles] == FileOf(g[i])
    decreases |g|
  {
    hide Stored, FileOf;
    var n := |g| - 1;
    StoredStep(before, g, maxFiles);
    if i < n {
      SlotsApart(i, n, maxFiles);
      LastAreStored(before, g[..n], maxFiles, i);
    }
  }

  /** Any other file is one the ring has not reached. */
  lemma {:induction false} OthersAreOld(before: Directory, g: seq<seq<Packet>>, maxFiles: nat, slot: nat)
    requires 0 < maxFiles && forall i :: Oldest(|g|, maxFiles) <= i < |g| ==> i % maxFiles != slot
    ensures (slot in Stored(before, g, maxFiles) <==> slot in before)
    ensures slot in before ==> Stored(before, g, maxFiles)[slot] == before[slot]
    decreases |g|
  {
    if g != [] {
      hide FileOf;
      var n := |g| - 1;
      StoredStep(before, g, maxFiles);
      assert n % maxFiles != slot;
      forall i | Oldest(n, maxFiles) <= i < n ensures i % maxFiles != slot {
        if i + maxFiles == n {
          SameSlot(i, maxFiles);
        }
      }
      OthersAreOld(before, g[..n], maxFiles, slot);
    }
  }

  /** The directory is exactly the last generations, a complete file for each, and what an earlier session left
      in slots of no generation. */
  lemma DirectoryHoldsLast(before: Directory, g: seq<seq<Packet>>, maxFiles: nat)
    requires 0 < maxFiles
    ensures forall i :: Oldest(|g|, maxFiles) <= i < |g| ==>
      i % maxFiles in Stored(before, g, maxFiles) && Stored(before, g, maxFiles)[i % maxFiles] == FileOf(g[i])
    ensures forall slot: nat :: (forall i :: Oldest(|g|, maxFiles) <= i < |g| ==> i % maxFiles != slot) ==>
      && (slot in Stored(before, g, maxFiles) <==> slot in before)
      && (slot in before ==> Stored(before, g, maxFiles)[slot] == before[slot])
  {
    hide Stored, FileOf;
    forall i | Oldest(|g|, maxFiles) <= i < |g|
      ensures i % maxFiles in Stored(before, g, maxFiles) && Stored(before, g, maxFiles)[i % maxFiles] == FileOf(g[i])
    {
      LastAreStored(before, g, maxFiles, i);
    }
    forall slot: nat | forall i :: Oldest(|g|, maxFiles) <= i < |g| ==> i % maxFiles != slot
      ensures slot in Stored(before, g, maxFiles) <==> slot in before
      ensures slot in before ==> Stored(before, g, maxFiles)[slot] == before[slot]
    {
      OthersAreOld(before, g, maxFiles, slot);
    }
  }

  lemma SameSlot(i: nat, k: nat)
    requires 0 < k
    ensures (i + k) % k == i % k
  {
    assert i + k == (i / k + 1) * k + i % k;
    ModUnique(i + k, i / k + 1, i % k, k);
  }

  lemma ModUnique(n: nat, q: nat, r: nat, k: nat)
    requires 0 < k && r < k && n == q * k + r
    ensures n % k == r
  {
    var d := n / k - q;
    assert d * k == r - n % k;
    Multiples(d, k);
  }

  /** The packets in the directory, read in order of generation. */
  function Kept(written: seq<Packet>, maxBytes: nat, maxFiles: nat): seq<Packet> {
    var g := Generations(written, maxBytes);
    Flatten(g[Oldest(|g|, maxFiles)..])
  }

  /** The packets of a file. */
  function PacketsOf(file: seq<Block>): seq<Packet> {
    if file == [] then []
    else (if file[0].Enhanced? then [file[0].packet] else []) + PacketsOf(file[1..])
  }

  lemma {:induction false} PacketsOfBlocks(ps: seq<Packet>)
    ensures PacketsOf(Blocks(ps)) == ps
  {
    if ps != [] {
      PacketsOfBlocks(ps[1..]);
      assert Blocks(ps)[1..] == Blocks(ps[1..]);
      assert ps == [ps[0]] + ps[1..];
    }
  }

  lemma PacketsOfFile(ps: seq<Packet>)
    ensures PacketsOf(FileOf(ps)) == ps
  {
    if ps != [] {
      var f := FileOf(ps);
      assert f[1..][1..] == Blocks(ps);
      PacketsOfBlocks(ps);
      assert PacketsOf(f) == [] + PacketsOf(f[1..]);
      assert PacketsOf(f[1..]) == [] + PacketsOf(f[1..][1..]);
    }
  }

  /** Reading the directory back, one generation after another. */
  function ReadBack(d: Directory, i: nat, n: nat, maxFiles: nat): seq<Packet>
    requires 0 < maxFiles
    decreases n - i
  {
    if n <= i then []
    else (if i % maxFiles in d then PacketsOf(d[i % maxFiles]) else []) + ReadBack(d, i + 1, n, maxFiles)
  }

  lemma {:induction false} ReadBackFrom(before: Directory, g: seq<seq<Packet>>, maxFiles: nat, i: nat)
    requires 0 < maxFiles && Oldest(|g|, maxFiles) <= i <= |g|
    ensures ReadBack(Stored(before, g, maxFiles), i, |g|, maxFiles) == Flatten(g[i..])
    decreases |g| - i
  {
    hide Stored, PacketsOf;
    if i < |g| {
      LastAreStored(before, g, maxFiles, i);
      PacketsOfFile(g[i]);
      ReadBackFrom(before, g, maxFiles, i + 1);
      assert g[i..][0] == g[i] && g[i..][1..] == g[i + 1..];
    }
  }

  /** The directory, read in order of generation, is what retention speaks of. */
  lemma DirectoryReadsBack(before: Directory, written: seq<Packet>, maxBytes: nat, maxFiles: nat)
    requires 0 < maxFiles
    ensures var g := Generations(written, maxBytes);
      ReadBack(Stored(before, g, maxFiles), Oldest(|g|, maxFiles), |g|, maxFiles) == Kept(written, maxBytes, maxFiles)
  {
    var g := Generations(written, maxBytes);
    ReadBackFrom(before, g, maxFiles, Oldest(|g|, maxFiles));
  }

  lemma {:induction false} SizeAppend(a: seq<Packet>, b: seq<Packet>)
    ensures Size(a + b) == Size(a) + Size(b)
  {
    if b == [] {
      assert a + b == a;
    } else {
      SizeAppend(a, b[..|b| - 1]);
      assert (a + b)[..|a + b| - 1] == a + b[..|b| - 1];
    }
  }

  lemma MulStep(n: nat, k: nat)
    ensures (n + 1) * k == k + n * k
  {
  }

  lemma {:induction false} SizeOfFull(g: seq<seq<Packet>>, maxBytes: nat)
    requires forall i :: 0 <= i < |g| - 1 ==> maxBytes <= Size(g[i])
    ensures g != [] ==> (|g| - 1) * maxBytes <= Size(Flatten(g))
  {
    if 1 < |g| {
      hide Size;
      SizeOfFull(g[1..], maxBytes);
      SizeAppend(g[0], Flatten(g[1..]));
      MulStep(|g| - 2, maxBytes);
    }
  }

  lemma {:induction false} SizeOfBounded(g: seq<seq<Packet>>, bound: nat)
    requires forall i :: 0 <= i < |g| ==> Size(g[i]) <= bound
    ensures Size(Flatten(g)) <= |g| * bound
  {
    if g != [] {
      SizeOfBounded(g[1..], bound);
      SizeAppend(g[0], Flatten(g[1..]));
      MulStep(|g| - 1, bound);
    }
  }

  predicate IsSuffix(kept: seq<Packet>, written: seq<Packet>) {
    |kept| <= |written| && kept == written[|written| - |kept|..]
  }

  /** After any run of writes the ring keeps a contiguous suffix of the packets, all of them while there
      are files to spare. */
  lemma KeptIsSuffix(written: seq<Packet>, maxBytes: nat, maxFiles: nat)
    ensures IsSuffix(Kept(written, maxBytes, maxFiles), written)
    ensures |Generations(written, maxBytes)| <= maxFiles ==> Kept(written, maxBytes, maxFiles) == written
  {
    hide Generations, Flatten;
    var g := Generations(written, maxBytes);
    var first := Oldest(|g|, maxFiles);
    GenerationsKeepAll(written, maxBytes);
    assert g == g[..first] + g[first..];
    FlattenAppend(g[..first], g[first..]);
    assert |g| <= maxFiles ==> g[first..] == g;
  }

  /** Once every file is in use, all but one of them are full files of the most recent packets. */
  lemma KeptAtLeast(written: seq<Packet>, maxBytes: nat, maxFiles: nat)
    requires 0 < maxBytes && 0 < maxFiles <= |Generations(written, maxBytes)|
    ensures (maxFiles - 1) * maxBytes <= Size(Kept(written, maxBytes, maxFiles))
  {
    hide Generations, Flatten, Size;
    var g := Generations(written, maxBytes);
    ClosedWhenFull(written, maxBytes);
    SizeOfFull(g[Oldest(|g|, maxFiles)..], maxBytes);
  }

  /** The ring never holds more than its files, each over the limit by at most one block. */
  lemma KeptAtMost(written: seq<Packet>, maxBytes: nat, maxFiles: nat, block: nat)
    requires 0 < maxBytes
    requires forall p :: p in written ==> BlockLen(p) <= block
    ensures Size(Kept(written, maxBytes, maxFiles)) <= maxFiles * (maxBytes + block)
  {
    hide Generations, Flatten, Size;
    var g := Generations(written, maxBytes);
    var first := Oldest(|g|, maxFiles);
    var window := g[first..];
    forall i | 0 <= i < |window| ensures Size(window[i]) <= maxBytes + block {
      GenerationBounded(written, maxBytes, block, first + i);
    }
    SizeOfBounded(window, maxBytes + block);
    MulOrder(|window|, maxFiles, maxBytes + block);
  }

  lemma MulOrder(a: nat, b: nat, c: nat)
    requires a <= b
    ensures a * c <= b * c
  {
  }

  lemma GenerationBounded(written: seq<Packet>, maxBytes: nat, block: nat, i: nat)
    requires 0 < maxBytes && i < |Generations(written, maxBytes)|
    requires forall p :: p in written ==> BlockLen(p) <= block
    ensures Size(Generations(written, maxBytes)[i]) <= maxBytes + block
  {
    ClosedWhenFull(written, maxBytes);
    GenerationsKeepAll(written, maxBytes);
    var g := Generations(written, maxBytes);
    var ps := g[i];
    assert OpenUntilLast(ps, maxBytes);
    if ps != [] {
      InFlatten(g, i, ps[|ps| - 1]);
    }
  }

  lemma {:induction false} InFlatten<T>(g: seq<seq<T>>, i: nat, x: T)
    requires i < |g| && x in g[i]
    ensures x in Flatten(g)
  {
    if i != 0 {
      InFlatten(g[1..], i - 1, x);
    }
  }
}
