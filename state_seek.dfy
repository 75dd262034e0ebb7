/**
 * The two loops of `state_seek` (simulator.c, lines 729-798) on the log as
 * values, each proved to end where SeekForward / SeekBackward say, and what
 * seeking means for the log: a rewind undoes a logged write, a replay redoes
 * it.
 */
module StateSeek {
  import opened StateLog

  /** The forward loop: replay successors until the target cycle or the end of the log. */
  method Forward(live: map<Cell, Word>, recs: seq<Record>, flags: seq<Word>, h: nat, cyc: int, target: int)
    returns (p: Pos)
    requires Arena(recs, flags, live) && h < |recs|
    ensures p == SeekForward(live, recs, flags, h, cyc, target)
  {
    var lv, c := live, cyc;
    var hd: nat := h;
    while target > c
      invariant hd < |recs| && lv.Keys == live.Keys && Arena(recs, flags, lv)
      invariant SeekForward(lv, recs, flags, hd, c, target) == SeekForward(live, recs, flags, h, cyc, target)
      decreases |recs| - hd
    {
      assert RecOk(recs, flags, lv, hd);
      if recs[hd].next == -1 {
        return Pos(lv, hd, c, Tolerable);
      }
      hd := recs[hd].next;
      assert RecOk(recs, flags, lv, hd);
      var r := recs[hd];
      ArenaWider(recs, flags, lv, flags, lv[r.target.cell := r.val]);
      lv := lv[r.target.cell := r.val];
      if r.next == -1 || recs[r.next].cycle > r.cycle {
        c := c + 1;
      }
    }
    p := Pos(lv, hd, c, Done);
  }

  /** The backward loop: restore replaced values until the head's cycle is not later than the target. */
  method Backward(live: map<Cell, Word>, recs: seq<Record>, flags: seq<Word>, h: nat, target: int)
    returns (p: Pos)
    requires Arena(recs, flags, live) && h < |recs|
    ensures p == SeekBackward(live, recs, flags, h, target)
  {
    var lv := live;
    var hd: nat := h;
    assert RecOk(recs, flags, lv, hd);
    while recs[hd].cycle > target
      invariant hd < |recs| && lv.Keys == live.Keys && Arena(recs, flags, lv)
      invariant SeekBackward(lv, recs, flags, hd, target) == SeekBackward(live, recs, flags, h, target)
      decreases hd
    {
      assert RecOk(recs, flags, lv, hd);
      var r := recs[hd];
      if flags[r.flags] & IO_BARRIER != 0 {
        return Pos(lv, hd, r.cycle, Tolerable);
      }
      if r.prev == -1 {
        return Pos(lv, hd, r.cycle, Fatal(Abort));
      }
      ArenaWider(recs, flags, lv, flags, lv[r.target.cell := r.prevVal]);
      lv := lv[r.target.cell := r.prevVal];
      hd := r.prev;
    }
    p := Pos(lv, hd, recs[hd].cycle, Done);
  }
}
