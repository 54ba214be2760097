/** The table managers' writes and reads of one whole entry, as the SBUS calls carry them out. */
module TableAccess {
  import opened Bits
  import opened Wrappers
  import opened Schan
  import opened Chip
  import opened Transport
  import opened TableDelivery
  import SbusCalls
  import Sbus
  import opened SbusDriver

  // All words of the entry are delivered, and success is reported exactly when the target has
  // performed the write: what the transport that the managers rely on does.
  method PutEntry(driver: Driver, t: Table, i: nat, ws: seq<Word>) returns (rc: int)
    requires driver.Valid() && i < Entries(t) && |ws| == EntryWords(t)
    modifies driver
    ensures driver.Valid() && driver.bar.d[MISC] == old(driver.bar.d[MISC]) && driver.turn == old(driver.turn) + 1
    ensures var a := driver.answers(old(driver.turn));
      && driver.cells == AfterOp(old(driver.cells), old(driver.bar.d), a, Put(t, i, ws), old(driver.bar.d[MISC]))
      && rc == if Performed(a) then 0 else -1
  {
    hide Sbus.Block, SbusCalls.AfterWrite;
    rc := driver.MemWrite(BaseAddr(t), i, ws);
  }

  // Exactly what a read of the entry reports, as many words as the entry has.
  method FetchEntry(driver: Driver, t: Table, i: nat) returns (rc: int, data: seq<Word>)
    requires driver.Valid() && i < Entries(t)
    modifies driver
    ensures driver.Valid() && driver.bar.d[MISC] == old(driver.bar.d[MISC]) && driver.turn == old(driver.turn) + 1
    ensures var (d, a) := (old(driver.bar.d), driver.answers(old(driver.turn)));
      && driver.cells == AfterOp(old(driver.cells), d, a, Fetch(t, i), d[MISC]) == old(driver.cells)
      && (|| (rc == 0 && ChipRead(d, driver.cells, a, t, i) == Some(data))
          || (rc == -1 && ChipRead(d, driver.cells, a, t, i) == None))
      && (rc == 0 ==> |data| == EntryWords(t))
  {
    hide Sbus.Block, Fetched, Words, Transact;
    BlockFits(t);
    ReadEffect(driver.bar.d, driver.cells, driver.answers(driver.turn), Sbus.READ_MEM, Sbus.Block(BaseAddr(t)),
               SbusCalls.IndexedAddr(BaseAddr(t), i), EntryWords(t));
    rc, data := driver.MemRead(BaseAddr(t), i, EntryWords(t));
  }
}
