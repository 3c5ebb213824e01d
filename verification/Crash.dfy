// What is on the disk when the machine stops (log.c).
//
// commit() and recover_from_log() are written here as the sequences of block writes
// they issue.  A crash cuts such a sequence after any number of writes.
module Crash {
  import opened Blocks
  import opened Common

  const LOGSIZE: nat := 30

  /** The log area: header block at start, then size - 1 blocks of data. */
  datatype Layout = Layout(start: nat, size: nat)

  predicate Home(l: Layout, b: nat) {
    !(l.start <= b < l.start + l.size)
  }

  function HeaderCount(b: Block): nat {
    Word(b, 0)
  }

  function HeaderOf(b: Block): (h: seq<nat>)
    requires HeaderCount(b) < NWORDS
  {
    seq(HeaderCount(b), i requires 0 <= i < HeaderCount(b) => Word(b, i + 1))
  }

  /** A block list the log may hold on a disk of nblocks blocks. */
  ghost predicate Loggable(l: Layout, nblocks: nat, h: seq<nat>) {
    && |h| <= LOGSIZE && |h| < l.size && Distinct(h)
    && (forall i :: 0 <= i < |h| ==> h[i] < nblocks && Home(l, h[i]))
  }

  ghost predicate Fits(l: Layout, d: Disk) {
    0 < l.size && l.start + l.size <= |d| <= WORDMAX
  }

  ghost predicate Formatted(l: Layout, d: Disk) {
    && Fits(l, d)
    && HeaderCount(d[l.start]) < NWORDS
    && Loggable(l, |d|, HeaderOf(d[l.start]))
  }

  function Header(l: Layout, d: Disk): seq<nat>
    requires l.start < |d| && HeaderCount(d[l.start]) < NWORDS
  {
    HeaderOf(d[l.start])
  }

  // ----- Header blocks -----

  function PutWords(b: Block, h: seq<nat>, k: nat): (r: Block)
    requires k <= |h| < NWORDS && forall i :: 0 <= i < |h| ==> h[i] < WORDMAX
    ensures Word(r, 0) == Word(b, 0)
    ensures forall i: nat :: i < k ==> Word(r, i + 1) == h[i]
    ensures forall i: nat :: k < i < NWORDS ==> Word(r, i) == Word(b, i)
  {
    if k == 0 then b else SetWord(PutWords(b, h, k - 1), k, h[k - 1])
  }

  /** The header block after write_head stores h in it. */
  function PutHeader(b: Block, h: seq<nat>): (r: Block)
    requires |h| < NWORDS && forall i :: 0 <= i < |h| ==> h[i] < WORDMAX
    ensures HeaderCount(r) == |h| && HeaderOf(r) == h
  {
    PutWords(SetWord(b, 0, |h|), h, |h|)
  }

  // ----- The write sequences -----

  /** write_log: contents into the log area. */
  function LogWrites(l: Layout, data: seq<Block>): (ws: seq<Write>)
    ensures |ws| == |data|
  {
    seq(|data|, t requires 0 <= t < |data| => Write(l.start + 1 + t, data[t]))
  }

  /** install_trans: contents to their home blocks. */
  function HomeWrites(h: seq<nat>, data: seq<Block>): (ws: seq<Write>)
    requires |h| == |data|
    ensures |ws| == |data|
  {
    seq(|data|, t requires 0 <= t < |data| => Write(h[t], data[t]))
  }

  /** The data blocks of the log. */
  function Logged(l: Layout, d: Disk, n: nat): (data: seq<Block>)
    requires l.start + n < |d|
    ensures |data| == n && forall t :: 0 <= t < n ==> data[t] == d[l.start + 1 + t]
  {
    seq(n, t requires 0 <= t < n => d[l.start + 1 + t])
  }

  /** commit() on disk d, for the blocks h with cached contents data. */
  function CommitWrites(l: Layout, d: Disk, h: seq<nat>, data: seq<Block>): (ws: seq<Write>)
    requires l.start < |d| && |h| == |data| && |h| < NWORDS && forall i :: 0 <= i < |h| ==> h[i] < WORDMAX
  {
    var full := PutHeader(d[l.start], h);
    LogWrites(l, data) + [Write(l.start, full)] + HomeWrites(h, data) + [Write(l.start, PutHeader(full, []))]
  }

  /** recover_from_log() on disk d. */
  ghost function RecoveryWrites(l: Layout, d: Disk): (ws: seq<Write>)
    requires Formatted(l, d)
    ensures InRange(d, ws)
  {
    var h := Header(l, d);
    HomeWrites(h, Logged(l, d, |h|)) + [Write(l.start, PutHeader(d[l.start], []))]
  }

  /** The disk as a completed recovery leaves it, apart from the log area. */
  ghost function Durable(l: Layout, d: Disk): (r: Disk)
    requires Formatted(l, d)
    ensures |r| == |d|
  {
    var h := Header(l, d);
    Apply(d, HomeWrites(h, Logged(l, d, |h|)))
  }

  ghost predicate SameHome(l: Layout, d: Disk, e: Disk) {
    |d| == |e| && forall b :: 0 <= b < |d| && Home(l, b) ==> d[b] == e[b]
  }

  // ----- Applying writes -----

  lemma {:induction false} ApplyOther(d: Disk, ws: seq<Write>, b: nat)
    requires InRange(d, ws) && b < |d| && forall i :: 0 <= i < |ws| ==> ws[i].bno != b
    ensures Apply(d, ws)[b] == d[b]
  {
    if ws != [] {
      ApplyOther(d, ws[..|ws| - 1], b);
    }
  }

  lemma {:induction false} ApplyAt(d: Disk, ws: seq<Write>, i: nat)
    requires InRange(d, ws) && i < |ws| && forall j :: i < j < |ws| ==> ws[j].bno != ws[i].bno
    ensures Apply(d, ws)[ws[i].bno] == ws[i].data
  {
    if i < |ws| - 1 {
      ApplyAt(d, ws[..|ws| - 1], i);
    }
  }

  /** Installing the first k blocks: those have their new contents, the rest is as before. */
  lemma InstallPrefix(d: Disk, h: seq<nat>, data: seq<Block>, k: nat)
    requires |h| == |data| && Distinct(h) && k <= |h| && forall i :: 0 <= i < |h| ==> h[i] < |d|
    ensures InRange(d, HomeWrites(h, data)[..k])
    ensures forall i :: 0 <= i < k ==> Apply(d, HomeWrites(h, data)[..k])[h[i]] == data[i]
    ensures forall b :: 0 <= b < |d| && b !in h[..k] ==> Apply(d, HomeWrites(h, data)[..k])[b] == d[b]
  {
    var ws := HomeWrites(h, data)[..k];
    assert InRange(d, ws);
    hide Apply;
    forall i | 0 <= i < k ensures Apply(d, ws)[h[i]] == data[i] {
      ApplyAt(d, ws, i);
    }
    forall b | 0 <= b < |d| && b !in h[..k] ensures Apply(d, ws)[b] == d[b] {
      forall i | 0 <= i < k ensures ws[i].bno != b {
        assert h[..k][i] == ws[i].bno;
      }
      ApplyOther(d, ws, b);
    }
  }

  /** The durable contents, block by block. */
  lemma DurableIs(l: Layout, d: Disk)
    requires Formatted(l, d)
    ensures var h := Header(l, d);
            && (forall i :: 0 <= i < |h| ==> Durable(l, d)[h[i]] == d[l.start + 1 + i])
            && (forall b :: 0 <= b < |d| && b !in h ==> Durable(l, d)[b] == d[b])
  {
    var h := Header(l, d);
    var data := Logged(l, d, |h|);
    InstallPrefix(d, h, data, |h|);
    assert HomeWrites(h, data)[..|h|] == HomeWrites(h, data);
    assert h[..|h|] == h;
  }

  // ----- One crash -----

  /** The installed part of a transaction does not change what recovery would install. */
  lemma DurableKept(l: Layout, d: Disk, c: Disk)
    requires Formatted(l, d) && |c| == |d| && c[l.start] == d[l.start]
    requires Logged(l, c, |Header(l, d)|) == Logged(l, d, |Header(l, d)|)
    requires forall b :: 0 <= b < |d| && b !in Header(l, d) ==> c[b] == d[b]
    ensures Formatted(l, c) && Durable(l, c) == Durable(l, d)
  {
    hide Word;
    DurableIs(l, d);
    DurableIs(l, c);
    var h := Header(l, d);
    forall b | 0 <= b < |d| ensures Durable(l, c)[b] == Durable(l, d)[b] {
      if b in h {
        var i :| 0 <= i < |h| && h[i] == b;
        assert Logged(l, c, |h|)[i] == Logged(l, d, |h|)[i];
      }
    }
  }

  /**
   * Recovery may be cut anywhere and started again: after any k of its writes the disk is
   * still well formed and holds the same durable contents, and after all of them the log
   * is empty with those contents in their home blocks.
   */
  lemma RecoveryCut(l: Layout, d: Disk, k: nat)
    requires Formatted(l, d) && k <= |RecoveryWrites(l, d)|
    ensures var c := Apply(d, RecoveryWrites(l, d)[..k]);
            && Formatted(l, c)
            && SameHome(l, Durable(l, c), Durable(l, d))
            && (k == |RecoveryWrites(l, d)| ==> Header(l, c) == [] && SameHome(l, c, Durable(l, d)))
  {
    hide Word;
    hide PutHeader;
    var h := Header(l, d);
    var data := Logged(l, d, |h|);
    var ws := RecoveryWrites(l, d);
    if k <= |h| {
      assert ws[..k] == HomeWrites(h, data)[..k];
      InstallPrefix(d, h, data, k);
      DurableKept(l, d, Apply(d, ws[..k]));
    } else {
      assert ws[..k] == ws && ws[..|ws| - 1] == HomeWrites(h, data);
      DurableIs(l, Apply(d, ws));
    }
  }

  /** k blocks written into an empty log: home blocks and header are untouched. */
  lemma LogPrefix(l: Layout, d: Disk, data: seq<Block>, k: nat)
    requires Fits(l, d) && |data| < l.size && k <= |data|
    ensures InRange(d, LogWrites(l, data)[..k])
    ensures var c := Apply(d, LogWrites(l, data)[..k]);
            && c[l.start] == d[l.start] && SameHome(l, c, d)
            && forall t :: 0 <= t < k ==> c[l.start + 1 + t] == data[t]
  {
    var ws := LogWrites(l, data)[..k];
    forall b | 0 <= b < |d| && (b == l.start || Home(l, b)) ensures Apply(d, ws)[b] == d[b] {
      ApplyOther(d, ws, b);
    }
    forall t | 0 <= t < k ensures Apply(d, ws)[l.start + 1 + t] == data[t] {
      ApplyAt(d, ws, t);
    }
  }

  lemma LogStep(l: Layout, d: Disk, data: seq<Block>, k: nat)
    requires Fits(l, d) && |data| < l.size && k < |data|
    ensures InRange(d, LogWrites(l, data)[..k]) && InRange(d, LogWrites(l, data)[..k + 1])
    ensures LogWrites(l, data)[..k + 1] == LogWrites(l, data)[..k] + [Write(l.start + 1 + k, data[k])]
    ensures Apply(d, LogWrites(l, data)[..k + 1]) == Apply(d, LogWrites(l, data)[..k])[l.start + 1 + k := data[k]]
    ensures SameHome(l, d, Apply(d, LogWrites(l, data)[..k]))
  {
    LogPrefix(l, d, data, k);
    ApplySnoc(d, LogWrites(l, data)[..k], Write(l.start + 1 + k, data[k]));
  }

  lemma HomeStep(d: Disk, h: seq<nat>, data: seq<Block>, k: nat)
    requires |h| == |data| && Distinct(h) && k < |h| && forall i :: 0 <= i < |h| ==> h[i] < |d|
    ensures InRange(d, HomeWrites(h, data)[..k]) && InRange(d, HomeWrites(h, data)[..k + 1])
    ensures HomeWrites(h, data)[..k + 1] == HomeWrites(h, data)[..k] + [Write(h[k], data[k])]
    ensures Apply(d, HomeWrites(h, data)[..k + 1]) == Apply(d, HomeWrites(h, data)[..k])[h[k] := data[k]]
    ensures forall b :: 0 <= b < |d| && b !in h ==> Apply(d, HomeWrites(h, data)[..k])[b] == d[b]
  {
    InstallPrefix(d, h, data, k);
    ApplySnoc(d, HomeWrites(h, data)[..k], Write(h[k], data[k]));
  }

  /** Disks that agree on home blocks agree there after the same home writes. */
  lemma InstallSame(l: Layout, d: Disk, e: Disk, h: seq<nat>, data: seq<Block>)
    requires SameHome(l, d, e) && |h| == |data| && Loggable(l, |d|, h)
    ensures InRange(d, HomeWrites(h, data)) && InRange(e, HomeWrites(h, data))
    ensures SameHome(l, Apply(d, HomeWrites(h, data)), Apply(e, HomeWrites(h, data)))
  {
    var n := |h|;
    assert HomeWrites(h, data)[..n] == HomeWrites(h, data) && h[..n] == h;
    InstallPrefix(d, h, data, n);
    InstallPrefix(e, h, data, n);
  }

  /** The disk after the header write: home blocks as before, the transaction in the log. */
  lemma LoggedDisk(l: Layout, d: Disk, data: seq<Block>, header: Block)
    requires Fits(l, d) && |data| < l.size
    ensures InRange(d, LogWrites(l, data) + [Write(l.start, header)])
    ensures var e := Apply(d, LogWrites(l, data) + [Write(l.start, header)]);
            e[l.start] == header && SameHome(l, d, e) && Logged(l, e, |data|) == data
  {
    hide Word;
    LogPrefix(l, d, data, |data|);
    assert LogWrites(l, data)[..|data|] == LogWrites(l, data);
    ApplySnoc(d, LogWrites(l, data), Write(l.start, header));
  }

  /** What recovery does with a given header and log contents. */
  lemma RecoveryOf(l: Layout, e: Disk, h: seq<nat>, data: seq<Block>)
    requires Fits(l, e) && Loggable(l, |e|, h) && |data| == |h|
    requires HeaderCount(e[l.start]) == |h| && HeaderOf(e[l.start]) == h && Logged(l, e, |h|) == data
    ensures Formatted(l, e) && InRange(e, HomeWrites(h, data))
    ensures RecoveryWrites(l, e) == HomeWrites(h, data) + [Write(l.start, PutHeader(e[l.start], []))]
    ensures Durable(l, e) == Apply(e, HomeWrites(h, data))
  {
    hide Word;
    hide PutHeader;
    hide Apply;
  }

  /** The header write makes the transaction durable: the rest of commit() is a recovery. */
  lemma HeaderWritten(l: Layout, d: Disk, h: seq<nat>, data: seq<Block>)
    requires Formatted(l, d) && Loggable(l, |d|, h) && |data| == |h|
    ensures var logged := LogWrites(l, data) + [Write(l.start, PutHeader(d[l.start], h))];
            && InRange(d, logged) && InRange(d, HomeWrites(h, data))
            && var e := Apply(d, logged);
               && Formatted(l, e)
               && SameHome(l, Durable(l, e), Apply(d, HomeWrites(h, data)))
               && CommitWrites(l, d, h, data) == logged + RecoveryWrites(l, e)
  {
    hide Word;
    hide PutHeader;
    hide Apply;
    hide HeaderOf;
    hide HomeWrites;
    hide LogWrites;
    hide Durable;
    hide RecoveryWrites;
    hide Logged;
    hide CommitWrites;
    hide Distinct;
    var full := PutHeader(d[l.start], h);
    var logged := LogWrites(l, data) + [Write(l.start, full)];
    LoggedDisk(l, d, data, full);
    var e := Apply(d, logged);
    RecoveryOf(l, e, h, data);
    InstallSame(l, d, e, h, data);
    CommitIs(l, d, h, data);
  }

  /** commit() up to the header write, and the rest. */
  lemma CommitIs(l: Layout, d: Disk, h: seq<nat>, data: seq<Block>)
    requires l.start < |d| && |h| == |data| && |h| < NWORDS && forall i :: 0 <= i < |h| ==> h[i] < WORDMAX
    ensures var full := PutHeader(d[l.start], h);
            CommitWrites(l, d, h, data)
            == LogWrites(l, data) + [Write(l.start, full)] + (HomeWrites(h, data) + [Write(l.start, PutHeader(full, []))])
  {
    hide Word;
    hide PutHeader;
    hide HomeWrites;
    hide LogWrites;
  }

  /**
   * commit() is atomic: cut after k writes, recovery yields the old contents up to the
   * header write (write n) and exactly the new contents from then on.
   */
  lemma CommitCut(l: Layout, d: Disk, h: seq<nat>, data: seq<Block>, k: nat)
    requires Formatted(l, d) && Header(l, d) == []
    requires Loggable(l, |d|, h) && |data| == |h| && k <= |CommitWrites(l, d, h, data)|
    ensures InRange(d, CommitWrites(l, d, h, data)) && InRange(d, HomeWrites(h, data))
    ensures var c := Apply(d, CommitWrites(l, d, h, data)[..k]);
            && Formatted(l, c)
            && SameHome(l, Durable(l, c), if k <= |h| then d else Apply(d, HomeWrites(h, data)))
            && (k == |CommitWrites(l, d, h, data)| ==>
                  Header(l, c) == [] && SameHome(l, c, Apply(d, HomeWrites(h, data))))
  {
    hide Word;
    hide PutHeader;
    hide Apply;
    var ws := CommitWrites(l, d, h, data);
    var n := |h|;
    var logged := LogWrites(l, data) + [Write(l.start, PutHeader(d[l.start], h))];
    HeaderWritten(l, d, h, data);
    var e := Apply(d, logged);
    if k <= n {
      LogPrefix(l, d, data, k);
      assert ws[..k] == LogWrites(l, data)[..k];
      DurableIs(l, Apply(d, LogWrites(l, data)[..k]));
    } else {
      var rest := RecoveryWrites(l, e)[..k - n - 1];
      assert ws[..k] == logged + rest;
      ApplyConcat(d, logged, rest);
      RecoveryCut(l, e, k - n - 1);
    }
  }

  // ----- Any number of crashes -----

  /** Each boot runs recovery on the disk the last crash left and is cut in turn. */
  ghost predicate Reboots(l: Layout, ds: seq<Disk>) {
    && |ds| > 0
    && (forall i :: 0 <= i < |ds| ==> Formatted(l, ds[i]))
    && (forall i :: 0 < i < |ds| ==> CutOf(l, ds[i - 1], ds[i]))
  }

  ghost predicate CutOf(l: Layout, d: Disk, c: Disk)
    requires Formatted(l, d)
  {
    exists k: nat :: k <= |RecoveryWrites(l, d)| && c == Apply(d, RecoveryWrites(l, d)[..k])
  }

  lemma {:induction false} RebootsKeep(l: Layout, ds: seq<Disk>)
    requires Reboots(l, ds)
    ensures SameHome(l, Durable(l, ds[|ds| - 1]), Durable(l, ds[0]))
  {
    hide Word;
    hide Apply;
    hide Durable;
    hide RecoveryWrites;
    if |ds| > 1 {
      var n := |ds| - 1;
      assert CutOf(l, ds[n - 1], ds[n]);
      var k: nat :| k <= |RecoveryWrites(l, ds[n - 1])| && ds[n] == Apply(ds[n - 1], RecoveryWrites(l, ds[n - 1])[..k]);
      RecoveryCut(l, ds[n - 1], k);
      RebootsKeep(l, ds[..n]);
    }
  }

  /**
   * Crash atomicity: stop commit() after any k writes, then stop recovery any number of
   * times at any points; the recovery that completes leaves an empty log and home blocks
   * that are exactly the old contents (k <= n) or exactly the new ones (k > n).
   */
  lemma CrashAtomicity(l: Layout, d: Disk, h: seq<nat>, data: seq<Block>, k: nat, ds: seq<Disk>)
    requires Formatted(l, d) && Header(l, d) == []
    requires Loggable(l, |d|, h) && |data| == |h| && k <= |CommitWrites(l, d, h, data)|
    requires InRange(d, CommitWrites(l, d, h, data)[..k])
    requires Reboots(l, ds) && ds[0] == Apply(d, CommitWrites(l, d, h, data)[..k])
    ensures var last := ds[|ds| - 1];
            var r := Apply(last, RecoveryWrites(l, last));
            && Formatted(l, r) && Header(l, r) == []
            && InRange(d, HomeWrites(h, data))
            && SameHome(l, r, if k <= |h| then d else Apply(d, HomeWrites(h, data)))
  {
    hide Word;
    hide PutHeader;
    hide Apply;
    hide HomeWrites;
    CommitCut(l, d, h, data, k);
    RebootsKeep(l, ds);
    var last := ds[|ds| - 1];
    RecoveryCut(l, last, |RecoveryWrites(l, last)|);
    assert RecoveryWrites(l, last)[..|RecoveryWrites(l, last)|] == RecoveryWrites(l, last);
  }
}
