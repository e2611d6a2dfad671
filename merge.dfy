/** `merge_file` of both clients. The download folder is a map from file
    names to contents. The final file is opened for writing, which creates
    or empties it; then, for `i` from 1 to `total_parts`, the part file
    `"<name>.part<i>"` is appended to it and removed. Opening a part that is
    not there raises `FileNotFoundError`, which leaves the loop (and the
    function) with the final file holding what was appended so far. */
module Merge {
  import opened Bytes
  import opened Text
  import opened Files
  import Partition

  type Folder = map<string, seq<byte>>

  /** `f"{file_name}.part{i}"` */
  function PartName(name: string, i: int): string
  {
    name + ".part" + IntToString(i)
  }

  /** A part file is never the final file, and different indices name
      different part files. */
  lemma PartNameDistinct(name: string, i: int, j: int)
    ensures PartName(name, i) != name
    ensures PartName(name, i) == PartName(name, j) ==> i == j
  {
    assert |PartName(name, i)| > |name|;
    if PartName(name, i) == PartName(name, j) {
      var k := |name| + 5;
      assert IntToString(i) == PartName(name, i)[k..];
      assert IntToString(j) == PartName(name, j)[k..];
      ParseIntOfString(i);
      ParseIntOfString(j);
    }
  }

  /** The part files `merge_file` opens, in order: parts 1 to `total_parts`. */
  function PartList(name: string, totalParts: int): (parts: seq<string>)
    ensures |parts| == if totalParts > 0 then totalParts else 0
    ensures forall k :: 0 <= k < |parts| ==> parts[k] == PartName(name, k + 1)
  {
    if totalParts <= 0 then [] else seq(totalParts, k requires 0 <= k < totalParts => PartName(name, k + 1))
  }

  predicate Distinct(parts: seq<string>)
  {
    forall a, b :: 0 <= a < b < |parts| ==> parts[a] != parts[b]
  }

  /** The part files are distinct and none of them is the final file. */
  lemma PartListNames(name: string, totalParts: int)
    ensures Distinct(PartList(name, totalParts)) && name !in PartList(name, totalParts)
  {
    var parts := PartList(name, totalParts);
    forall a, b | 0 <= a < b < |parts| ensures parts[a] != parts[b] {
      PartNameDistinct(name, a + 1, b + 1);
    }
    forall k | 0 <= k < |parts| ensures parts[k] != name {
      PartNameDistinct(name, k + 1, k + 1);
    }
  }

  /** The folder after appending, and whether every part was there. */
  datatype Merged = Merged(folder: Folder, complete: bool)

  /** The loop over the part files still to open, with the final file
      holding what was appended so far. */
  function MergeParts(folder: Folder, name: string, parts: seq<string>): (m: Merged)
    requires name in folder && name !in parts
    ensures name in m.folder
    decreases |parts|
  {
    if parts == [] then Merged(folder, true)
    else if parts[0] !in folder then Merged(folder, false)
    else MergeParts(folder[name := folder[name] + folder[parts[0]]] - {parts[0]}, name, parts[1..])
  }

  /** `merge_file(name, total_parts)` on a folder: open the final file for
      writing, then go through the parts. */
  function MergeSpec(folder: Folder, name: string, totalParts: int): (m: Merged)
    ensures name in m.folder
  {
    PartListNames(name, totalParts);
    MergeParts(folder[name := []], name, PartList(name, totalParts))
  }

  predicate Present(folder: Folder, parts: seq<string>)
  {
    forall k :: 0 <= k < |parts| ==> parts[k] in folder
  }

  /** The contents of the given part files, in order. */
  function Concat(folder: Folder, parts: seq<string>): seq<byte>
    requires Present(folder, parts)
    decreases |parts|
  {
    if parts == [] then [] else folder[parts[0]] + Concat(folder, parts[1..])
  }

  function Names(parts: seq<string>): set<string>
  {
    set p | p in parts
  }

  /** Only the contents of the part files themselves matter. */
  lemma {:induction false} ConcatFrame(folder: Folder, folder': Folder, parts: seq<string>)
    requires Present(folder, parts)
    requires forall k :: 0 <= k < |parts| ==> parts[k] in folder' && folder'[parts[k]] == folder[parts[k]]
    ensures Present(folder', parts)
    ensures Concat(folder', parts) == Concat(folder, parts)
    decreases |parts|
  {
    if parts != [] {
      ConcatFrame(folder, folder', parts[1..]);
    }
  }

  /** Removing one part file after updating the final file, then the rest. */
  lemma RemoveOneMore(folder: Folder, name: string, part: string, rest: set<string>, acc: seq<byte>, contents: seq<byte>)
    requires part != name
    ensures ((folder[name := acc] - {part}) - rest)[name := contents] == (folder - ({part} + rest))[name := contents]
  {
    var lhs := ((folder[name := acc] - {part}) - rest)[name := contents];
    var rhs := (folder - ({part} + rest))[name := contents];
    assert forall k :: k in lhs <==> k in rhs;
    assert forall k :: k in lhs ==> lhs[k] == rhs[k];
  }

  /** Emptying the final file first makes no difference once it is
      overwritten anyway. */
  lemma SameAfterRemoving(folder: Folder, name: string, gone: set<string>, contents: seq<byte>)
    ensures (folder[name := []] - gone)[name := [] + contents] == (folder - gone)[name := contents]
  {
    assert [] + contents == contents;
    var lhs := (folder[name := []] - gone)[name := contents];
    var rhs := (folder - gone)[name := contents];
    assert forall k :: k in lhs <==> k in rhs;
    assert forall k :: k in lhs ==> lhs[k] == rhs[k];
  }

  /** What the loop does when its first `j` part files are there and the
      next one is missing (or there is none): the final file gains those
      parts in order, exactly those part files are removed, nothing else
      changes, and the merge is complete just when no part was missing. */
  lemma {:induction false} MergePartsPrefix(folder: Folder, name: string, parts: seq<string>, j: nat)
    requires name in folder && name !in parts && Distinct(parts)
    requires j <= |parts| && Present(folder, parts[..j])
    requires j < |parts| ==> parts[j] !in folder
    ensures MergeParts(folder, name, parts)
            == Merged((folder - Names(parts[..j]))[name := folder[name] + Concat(folder, parts[..j])], j == |parts|)
    decreases j
  {
    if j == 0 {
      assert parts[..0] == [] && Names([]) == {};
      assert folder - {} == folder;
      assert folder[name] + [] == folder[name];
      assert folder[name := folder[name]] == folder;
    } else {
      var p, rest := parts[0], parts[1..];
      assert p == parts[..j][0];
      var next := folder[name := folder[name] + folder[p]] - {p};
      assert parts[..j][1..] == rest[..j - 1];
      var done := rest[..j - 1];
      forall k | 0 <= k < |done|
        ensures done[k] in next && next[done[k]] == folder[done[k]]
      {
        assert done[k] == parts[k + 1] == parts[..j][k + 1];
      }
      ConcatFrame(folder, next, done);
      if j < |parts| {
        assert rest[j - 1] == parts[j];
      }
      MergePartsPrefix(next, name, rest, j - 1);
      assert Names(parts[..j]) == {p} + Names(rest[..j - 1]);
      assert next[name] + Concat(next, rest[..j - 1]) == folder[name] + Concat(folder, parts[..j]);
      RemoveOneMore(folder, name, p, Names(rest[..j - 1]), folder[name] + folder[p], folder[name] + Concat(folder, parts[..j]));
    }
  }

  /** With every part present, the final file is the concatenation of parts
      1..`total_parts` in index order, every part file is gone, and the rest
      of the folder is unchanged. */
  lemma MergeConcatenates(folder: Folder, name: string, totalParts: int)
    requires forall k :: 1 <= k <= totalParts ==> PartName(name, k) in folder
    ensures Present(folder, PartList(name, totalParts))
    ensures MergeSpec(folder, name, totalParts)
            == Merged((folder - Names(PartList(name, totalParts)))[name := Concat(folder, PartList(name, totalParts))], true)
  {
    var parts := PartList(name, totalParts);
    PartListNames(name, totalParts);
    var start := folder[name := []];
    ConcatFrame(folder, start, parts);
    assert parts[..|parts|] == parts;
    MergePartsPrefix(start, name, parts, |parts|);
    SameAfterRemoving(folder, name, Names(parts), Concat(folder, parts));
  }

  /** When part `j` is the first one missing, the merge fails with the final
      file holding parts 1..`j - 1`, those part files removed and the later
      ones left in place. */
  lemma MissingPartStops(folder: Folder, name: string, totalParts: int, j: int)
    requires 1 <= j <= totalParts
    requires forall k :: 1 <= k < j ==> PartName(name, k) in folder
    requires PartName(name, j) !in folder
    ensures Present(folder, PartList(name, j - 1))
    ensures MergeSpec(folder, name, totalParts)
            == Merged((folder - Names(PartList(name, j - 1)))[name := Concat(folder, PartList(name, j - 1))], false)
  {
    var parts := PartList(name, totalParts);
    PartListNames(name, totalParts);
    var before := PartList(name, j - 1);
    assert parts[..j - 1] == before;
    var start := folder[name := []];
    ConcatFrame(folder, start, before);
    PartNameDistinct(name, j, j);
    MergePartsPrefix(start, name, parts, j - 1);
    SameAfterRemoving(folder, name, Names(before), Concat(folder, before));
  }

  /** A second merge after a complete one does not reproduce the file: the
      first part is gone, so the final file is emptied and the merge fails. */
  lemma MergeTwiceEmpties(folder: Folder, name: string, totalParts: int)
    requires totalParts >= 1 && forall k :: 1 <= k <= totalParts ==> PartName(name, k) in folder
    ensures var once := MergeSpec(folder, name, totalParts).folder;
            MergeSpec(once, name, totalParts) == Merged(once[name := []], false)
  {
    MergeConcatenates(folder, name, totalParts);
    var parts := PartList(name, totalParts);
    var once := MergeSpec(folder, name, totalParts).folder;
    PartListNames(name, totalParts);
    assert parts[0] in Names(parts);
    assert parts[0] !in once[name := []];
  }

  /** The whole download: when each part file holds the bytes its segment
      covers, as a loss-free transfer of that segment delivers them, the
      merged file is the original file. */
  lemma MergeReassembles(folder: Folder, name: string, file: seq<byte>)
    requires forall k :: 1 <= k <= Partition.NUM_PARTS ==>
               PartName(name, k) in folder
               && folder[PartName(name, k)] == ReadAt(file, Partition.PartOffset(|file|, k - 1), Partition.PartSize(|file|, k - 1))
    ensures MergeSpec(folder, name, Partition.NUM_PARTS)
            == Merged((folder - Names(PartList(name, Partition.NUM_PARTS)))[name := file], true)
  {
    MergeConcatenates(folder, name, Partition.NUM_PARTS);
    var parts := PartList(name, Partition.NUM_PARTS);
    ConcatOfFour(folder, parts);
    var n := |file|;
    assert folder[parts[0]] == ReadAt(file, Partition.PartOffset(n, 0), Partition.PartSize(n, 0));
    assert folder[parts[1]] == ReadAt(file, Partition.PartOffset(n, 1), Partition.PartSize(n, 1));
    assert folder[parts[2]] == ReadAt(file, Partition.PartOffset(n, 2), Partition.PartSize(n, 2));
    assert folder[parts[3]] == ReadAt(file, Partition.PartOffset(n, 3), Partition.PartSize(n, 3));
    Partition.SegmentsReassemble(file);
  }

  lemma ConcatOfFour(folder: Folder, parts: seq<string>)
    requires |parts| == 4 && Present(folder, parts)
    ensures Concat(folder, parts) == folder[parts[0]] + folder[parts[1]] + folder[parts[2]] + folder[parts[3]]
  {
    var p1, p2, p3, p4 := folder[parts[0]], folder[parts[1]], folder[parts[2]], folder[parts[3]];
    assert parts[1..][1..][1..][1..] == [];
    assert Concat(folder, parts[1..][1..][1..]) == p4 + [];
    assert Concat(folder, parts[1..][1..]) == p3 + Concat(folder, parts[1..][1..][1..]);
    assert Concat(folder, parts[1..]) == p2 + Concat(folder, parts[1..][1..]);
    assert p1 + (p2 + (p3 + (p4 + []))) == p1 + p2 + p3 + p4;
  }

  /** The download folder. */
  class Downloads {
    var folder: Folder

    constructor(folder: Folder)
      ensures this.folder == folder
    {
      this.folder := folder;
    }

    /** `merge_file(name, total_parts)`; `complete` is false where opening a
        part raises. */
    method MergeFile(name: string, totalParts: int) returns (complete: bool)
      modifies this
      ensures Merged(folder, complete) == MergeSpec(old(folder), name, totalParts)
    {
      folder := folder[name := []];
      ghost var parts := PartList(name, totalParts);
      PartListNames(name, totalParts);
      assert parts[0..] == parts;
      var i := 1;
      while i <= totalParts
        invariant 1 <= i <= |parts| + 1
        invariant name in folder
        invariant MergeParts(folder, name, parts[i - 1..]) == MergeSpec(old(folder), name, totalParts)
        decreases totalParts - i + 1
      {
        var part := PartName(name, i);
        assert parts[i - 1..][0] == part && parts[i - 1..][1..] == parts[i..];
        if part !in folder {
          return false;
        }
        folder := folder[name := folder[name] + folder[part]];
        folder := folder - {part};
        i := i + 1;
      }
      return true;
    }
  }
}
