/** Why the checks of copy_file_range matter: on ranges that passed them, a back end may cut the copy
    into pieces and take them in any order (fs/read_write.c). */
module CopyContents {
  import opened Machine
  import CopyRange

  /** Contents of the files, by inode number. */
  type Store = map<int, seq<Byte>>

  function ByteAt(s: seq<Byte>, i: nat): Byte {
    if i < |s| then s[i] else 0
  }

  /** A write at `p`, filling a gap after the old end of file with zeros. */
  function Overwrite(s: seq<Byte>, p: nat, data: seq<Byte>): (r: seq<Byte>)
    ensures |r| == Max(|s|, p + |data|)
    ensures forall i: nat :: ByteAt(r, i) == if p <= i < p + |data| then data[i - p] else ByteAt(s, i)
  {
    seq(Max(|s|, p + |data|), i requires 0 <= i => if p <= i < p + |data| then data[i - p] else ByteAt(s, i))
  }

  /** A copy request that passed the checks: the source lies inside its file, and within one file
      source and target do not meet. */
  datatype Request = Request(src: int, posIn: nat, dst: int, posOut: nat, len: nat)

  predicate Checked(fs: Store, r: Request) {
    && r.src in fs && r.dst in fs
    && r.posIn + r.len <= |fs[r.src]|
    && (r.src == r.dst ==> r.posIn + r.len <= r.posOut || r.posOut + r.len <= r.posIn)
  }

  /** One piece of the copy: bytes [at, at + n) of the request. */
  datatype Piece = Piece(at: nat, n: nat)

  predicate PiecesFit(pieces: seq<Piece>, len: nat) {
    forall k :: 0 <= k < |pieces| ==> pieces[k].n > 0 && pieces[k].at + pieces[k].n <= len
  }

  /** What a piece reads is whatever the source file holds at that moment. */
  function CopyPiece(fs: Store, r: Request, p: Piece): Store
    requires r.src in fs && r.dst in fs && r.posIn + p.at + p.n <= |fs[r.src]|
  {
    var data := fs[r.src][r.posIn + p.at..r.posIn + p.at + p.n];
    fs[r.dst := Overwrite(fs[r.dst], r.posOut + p.at, data)]
  }

  predicate Covered(pieces: seq<Piece>, k: int) {
    exists j :: 0 <= j < |pieces| && pieces[j].at <= k < pieces[j].at + pieces[j].n
  }

  ghost predicate CoversPrefix(pieces: seq<Piece>, n: nat) {
    forall k :: Covered(pieces, k) <==> 0 <= k < n
  }

  /** `new_` is the target `old_` with the covered bytes replaced by those of `src`, and no longer than they need. */
  ghost predicate Patched(src: seq<Byte>, old_: seq<Byte>, r: Request, pieces: seq<Piece>, new_: seq<Byte>)
    requires r.posIn + r.len <= |src|
  {
    && |old_| <= |new_|
    && (|old_| < |new_| ==> Covered(pieces, |new_| - 1 - r.posOut))
    && (forall k :: 0 <= k < r.len && Covered(pieces, k) ==> r.posOut + k < |new_|)
    && (forall i: nat :: ByteAt(new_, i) == PatchedByte(src, old_, r, pieces, i))
  }

  ghost function PatchedByte(src: seq<Byte>, old_: seq<Byte>, r: Request, pieces: seq<Piece>, i: nat): Byte
    requires r.posIn + r.len <= |src|
  {
    var k := i - r.posOut;
    if 0 <= k < r.len && Covered(pieces, k) then src[r.posIn + k] else ByteAt(old_, i)
  }

  /** `fs'` is what copying the pieces from the snapshot `fs` gives. */
  ghost predicate IsSnapshotCopy(fs: Store, r: Request, pieces: seq<Piece>, fs': Store)
    requires Checked(fs, r)
  {
    && fs'.Keys == fs.Keys
    && (forall f :: f in fs && f != r.dst ==> fs'[f] == fs[f])
    && Patched(fs[r.src], fs[r.dst], r, pieces, fs'[r.dst])
  }

  lemma CoveredSnoc(pieces: seq<Piece>, p: Piece, k: int)
    ensures Covered(pieces + [p], k) <==> Covered(pieces, k) || p.at <= k < p.at + p.n
  {
    var all := pieces + [p];
    if Covered(pieces, k) {
      var j :| 0 <= j < |pieces| && pieces[j].at <= k < pieces[j].at + pieces[j].n;
      assert all[j] == pieces[j];
    }
    if p.at <= k < p.at + p.n {
      assert all[|pieces|] == p;
    }
  }

  /** The copy never disturbs the bytes it still has to read. */
  lemma SourceKept(fs: Store, r: Request, pieces: seq<Piece>, fs': Store)
    requires Checked(fs, r) && IsSnapshotCopy(fs, r, pieces, fs')
    ensures r.posIn + r.len <= |fs'[r.src]|
    ensures forall i :: r.posIn <= i < r.posIn + r.len ==> fs'[r.src][i] == fs[r.src][i]
  {
    if r.src == r.dst {
      forall i | r.posIn <= i < r.posIn + r.len
        ensures fs'[r.src][i] == fs[r.src][i]
      {
        assert ByteAt(fs'[r.dst], i) == PatchedByte(fs[r.src], fs[r.dst], r, pieces, i);
      }
    }
  }

  lemma SameSlice(a: seq<Byte>, b: seq<Byte>, lo: nat, hi: nat)
    requires lo <= hi <= |a| && hi <= |b| && forall i :: lo <= i < hi ==> a[i] == b[i]
    ensures a[lo..hi] == b[lo..hi]
  {
  }

  lemma PatchOnce(src: seq<Byte>, old_: seq<Byte>, r: Request, pieces: seq<Piece>, new_: seq<Byte>, p: Piece)
    requires r.posIn + r.len <= |src| && p.n > 0 && p.at + p.n <= r.len
    requires Patched(src, old_, r, pieces, new_)
    ensures var bytes := src[r.posIn + p.at..r.posIn + p.at + p.n];
            Patched(src, old_, r, pieces + [p], Overwrite(new_, r.posOut + p.at, bytes))
  {
    var data := src[r.posIn + p.at..r.posIn + p.at + p.n];
    var newer := Overwrite(new_, r.posOut + p.at, data);
    forall i: nat
      ensures ByteAt(newer, i) == PatchedByte(src, old_, r, pieces + [p], i)
    {
      CoveredSnoc(pieces, p, i - r.posOut);
      assert ByteAt(new_, i) == PatchedByte(src, old_, r, pieces, i);
    }
    forall k | 0 <= k < r.len && Covered(pieces + [p], k)
      ensures r.posOut + k < |newer|
    {
      CoveredSnoc(pieces, p, k);
    }
    CoveredSnoc(pieces, p, |newer| - 1 - r.posOut);
  }

  /** One more piece, read from the live file, is as good as one read from the snapshot. */
  lemma PieceKeepsSnapshot(fs: Store, r: Request, pieces: seq<Piece>, fs': Store, p: Piece)
    requires Checked(fs, r) && IsSnapshotCopy(fs, r, pieces, fs')
    requires p.n > 0 && p.at + p.n <= r.len && r.posIn + r.len <= |fs'[r.src]|
    ensures IsSnapshotCopy(fs, r, pieces + [p], CopyPiece(fs', r, p))
  {
    var lo, hi := r.posIn + p.at, r.posIn + p.at + p.n;
    assert fs'[r.src][lo..hi] == fs[r.src][lo..hi] by {
      SourceKept(fs, r, pieces, fs');
      SameSlice(fs'[r.src], fs[r.src], lo, hi);
    }
    var target := Overwrite(fs'[r.dst], r.posOut + p.at, fs[r.src][lo..hi]);
    assert Patched(fs[r.src], fs[r.dst], r, pieces + [p], target) by {
      PatchOnce(fs[r.src], fs[r.dst], r, pieces, fs'[r.dst], p);
    }
    assert CopyPiece(fs', r, p) == fs'[r.dst := target];
  }

  lemma PatchedPrefix(src: seq<Byte>, old_: seq<Byte>, r: Request, pieces: seq<Piece>, new_: seq<Byte>, n: nat)
    requires r.posIn + r.len <= |src| && 0 < n <= r.len && CoversPrefix(pieces, n)
    requires Patched(src, old_, r, pieces, new_)
    ensures new_ == Overwrite(old_, r.posOut, src[r.posIn..r.posIn + n])
  {
    var data := src[r.posIn..r.posIn + n];
    var goal := Overwrite(old_, r.posOut, data);
    assert Covered(pieces, n - 1);
    assert |new_| == |goal|;
    forall i | 0 <= i < |goal|
      ensures new_[i] == goal[i]
    {
      assert ByteAt(new_, i) == PatchedByte(src, old_, r, pieces, i);
      assert ByteAt(goal, i) == if r.posOut <= i < r.posOut + n then data[i - r.posOut] else ByteAt(old_, i);
    }
  }

  /** Any copy that covers a prefix of the request, in whatever pieces and order, overwrites the target once with
      the source as it was before. */
  lemma PiecesDoNotMatter(fs: Store, r: Request, pieces: seq<Piece>, fs': Store, n: nat)
    requires Checked(fs, r) && IsSnapshotCopy(fs, r, pieces, fs')
    requires 0 < n <= r.len && CoversPrefix(pieces, n)
    ensures fs' == fs[r.dst := Overwrite(fs[r.dst], r.posOut, fs[r.src][r.posIn..r.posIn + n])]
  {
    PatchedPrefix(fs[r.src], fs[r.dst], r, pieces, fs'[r.dst], n);
    var goal := fs[r.dst := Overwrite(fs[r.dst], r.posOut, fs[r.src][r.posIn..r.posIn + n])];
    assert goal.Keys == fs'.Keys;
    assert forall f :: f in goal ==> goal[f] == fs'[f];
  }

  /** The copy step: a back end that moves the request piece by piece. */
  method CopyInPieces(fs: Store, r: Request, pieces: seq<Piece>) returns (fs': Store)
    requires Checked(fs, r) && PiecesFit(pieces, r.len)
    ensures IsSnapshotCopy(fs, r, pieces, fs')
    ensures forall n: nat :: 0 < n <= r.len && CoversPrefix(pieces, n) ==>
              fs' == fs[r.dst := Overwrite(fs[r.dst], r.posOut, fs[r.src][r.posIn..r.posIn + n])]
  {
    fs' := fs;
    var i := 0;
    while i < |pieces|
      invariant 0 <= i <= |pieces|
      invariant IsSnapshotCopy(fs, r, pieces[..i], fs')
    {
      assert pieces[..i + 1] == pieces[..i] + [pieces[i]];
      SourceKept(fs, r, pieces[..i], fs');
      PieceKeepsSnapshot(fs, r, pieces[..i], fs', pieces[i]);
      fs' := CopyPiece(fs', r, pieces[i]);
      i := i + 1;
    }
    assert pieces[..i] == pieces;
    forall n: nat | 0 < n <= r.len && CoversPrefix(pieces, n)
      ensures fs' == fs[r.dst := Overwrite(fs[r.dst], r.posOut, fs[r.src][r.posIn..r.posIn + n])]
    {
      PiecesDoNotMatter(fs, r, pieces, fs', n);
    }
  }

  /** What reaches the copy step of vfs_copy_file_range is such a request. */
  lemma CheckedByTheCall(fs: Store, inF: CopyRange.File, posIn: i64, out: CopyRange.File, posOut: i64,
                         len: u64, len0: u64, rlimit: u64)
    requires inF.inode in fs && out.inode in fs && |fs[inF.inode]| == inF.size
    requires CopyRange.SafeToCopy(inF, posIn, out, posOut, len, len0, rlimit)
    ensures Checked(fs, Request(inF.inode, posIn, out.inode, posOut, len))
  {
  }

  /** Without the overlap check the pieces would matter: copying one byte forward repeats the first byte. */
  lemma OverlapWouldMatter()
    ensures var fs: Store, r := map[7 := [1, 2, 3]], Request(7, 0, 7, 1, 2);
            CopyPiece(CopyPiece(fs, r, Piece(0, 1)), r, Piece(1, 1)) != CopyPiece(fs, r, Piece(0, 2))
  {
    var fs: Store, r := map[7 := [1, 2, 3]], Request(7, 0, 7, 1, 2);
    var once := CopyPiece(fs, r, Piece(0, 2));
    var first := CopyPiece(fs, r, Piece(0, 1));
    var twice := CopyPiece(first, r, Piece(1, 1));
    assert ByteAt(once[7], 2) == 2;
    assert ByteAt(first[7], 1) == 1;
    assert ByteAt(twice[7], 2) == 1;
  }
}
