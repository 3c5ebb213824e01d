// Disk blocks (fs.h): 512 bytes, which the kernel also reads as 128 little-endian
// 32-bit words (log header, indirect block).  A disk is a sequence of blocks; one
// block write is atomic.
module Blocks {
  import opened Common

  const BSIZE: nat := 512
  const NWORDS: nat := 128

  type Block = b: seq<byte> | |b| == BSIZE witness seq(BSIZE, _ => 0)

  function ZeroBlock(): (b: Block)
    ensures forall i :: 0 <= i < BSIZE ==> b[i] == 0
  {
    seq(BSIZE, _ => 0)
  }

  /** The i-th 32-bit word of a block, as the x86 reads it. */
  function Word(b: Block, i: nat): (w: nat)
    requires i < NWORDS
    ensures w < WORDMAX
  {
    (b[4 * i] as int) + 0x100 * (b[4 * i + 1] as int)
      + 0x1_0000 * (b[4 * i + 2] as int) + 0x100_0000 * (b[4 * i + 3] as int)
  }

  function WordBytes(w: nat): (s: seq<byte>)
    requires w < WORDMAX
    ensures |s| == 4 && (s[0] as int) + 0x100 * (s[1] as int) + 0x1_0000 * (s[2] as int) + 0x100_0000 * (s[3] as int) == w
  {
    var hi := w / 0x100;
    var top := hi / 0x100;
    [w % 0x100, hi % 0x100, top % 0x100, top / 0x100]
  }

  function SetWord(b: Block, i: nat, w: nat): (r: Block)
    requires i < NWORDS && w < WORDMAX
    ensures Word(r, i) == w
    ensures forall j: nat :: j < NWORDS && j != i ==> Word(r, j) == Word(b, j)
  {
    b[..4 * i] + WordBytes(w) + b[4 * i + 4..]
  }

  lemma ZeroWords(i: nat)
    requires i < NWORDS
    ensures Word(ZeroBlock(), i) == 0
  {
  }

  type Disk = seq<Block>

  datatype Write = Write(bno: nat, data: Block)

  ghost predicate InRange(d: Disk, ws: seq<Write>) {
    forall i :: 0 <= i < |ws| ==> ws[i].bno < |d|
  }

  /** The disk after a sequence of block writes. */
  function Apply(d: Disk, ws: seq<Write>): (r: Disk)
    requires InRange(d, ws)
    ensures |r| == |d|
  {
    if ws == [] then d
    else Apply(d, ws[..|ws| - 1])[ws[|ws| - 1].bno := ws[|ws| - 1].data]
  }

  lemma ApplySnoc(d: Disk, ws: seq<Write>, w: Write)
    requires InRange(d, ws) && w.bno < |d|
    ensures InRange(d, ws + [w])
    ensures Apply(d, ws + [w]) == Apply(d, ws)[w.bno := w.data]
  {
    assert (ws + [w])[..|ws + [w]| - 1] == ws;
  }

  lemma {:induction false} ApplyConcat(d: Disk, xs: seq<Write>, ys: seq<Write>)
    requires InRange(d, xs) && InRange(d, ys)
    ensures InRange(d, xs + ys)
    ensures Apply(d, xs + ys) == Apply(Apply(d, xs), ys)
  {
    if ys == [] {
      assert xs + ys == xs;
    } else {
      var init := ys[..|ys| - 1];
      ApplyConcat(d, xs, init);
      assert (xs + ys)[..|xs + ys| - 1] == xs + init;
      assert (xs + ys)[|xs + ys| - 1] == ys[|ys| - 1];
    }
  }
}
