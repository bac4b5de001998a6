/**
 * big5_wctomb: a rank dictionary. Each row of 16 code points has a bit for every one that can be
 * encoded and the number of them in the rows before; the rank of a code point selects its code.
 */
module Big5 {
  import opened BitCount
  import opened Values

  // ----- the tables -----

  datatype Summary16 = Summary16(indx: nat, used: bv16)

  /** big5_uni2indx_page*, one sequence a page, and big5_2charset. */
  datatype Tables = Tables(
    page00: seq<Summary16>, page02: seq<Summary16>, page20: seq<Summary16>, page24: seq<Summary16>,
    page30: seq<Summary16>, page4e: seq<Summary16>, pagefa: seq<Summary16>, pagefe: seq<Summary16>,
    charset: seq<nat>)
  {
    predicate Shaped() {
      |page00| == 16 && |page02| == 38 && |page20| == 44 && |page24| == 37 &&
      |page30| == 62 && |page4e| == 1307 && |pagefa| == 1 && |pagefe| == 23
    }

    /** All rows in the order of their code points. */
    function Rows(): seq<Summary16> {
      page00 + page02 + page20 + page24 + page30 + page4e + pagefa + pagefe
    }

    /** The indx fields are running counts, and there is a code for every rank. */
    predicate Sound() {
      Shaped() && (forall k :: 0 <= k < |Rows()| ==> Rows()[k].indx == Total(Rows(), k)) &&
      |charset| == Total(Rows(), |Rows()|) && forall k :: 0 <= k < |charset| ==> charset[k] < 0x10000
    }
  }

  /** The bits set in the first `k` rows. */
  function Total(rows: seq<Summary16>, k: nat): nat
    requires k <= |rows|
  {
    if k == 0 then 0 else Total(rows, k - 1) + Count(rows[k - 1].used, 16)
  }

  /** The row of a code point, if it is in one of the pages. */
  function Summary(t: Tables, wc: nat): Option<Summary16>
    requires t.Shaped()
  {
    if wc < 0x100 then Some(t.page00[wc / 16])
    else if 0x200 <= wc < 0x460 then Some(t.page02[wc / 16 - 0x20])
    else if 0x2000 <= wc < 0x22c0 then Some(t.page20[wc / 16 - 0x200])
    else if 0x2400 <= wc < 0x2650 then Some(t.page24[wc / 16 - 0x240])
    else if 0x3000 <= wc < 0x33e0 then Some(t.page30[wc / 16 - 0x300])
    else if 0x4e00 <= wc < 0x9fb0 then Some(t.page4e[wc / 16 - 0x4e0])
    else if 0xfa00 <= wc < 0xfa10 then Some(t.pagefa[wc / 16 - 0xfa0])
    else if 0xfe00 <= wc < 0xff70 then Some(t.pagefe[wc / 16 - 0xfe0])
    else None
  }

  predicate Encodable(t: Tables, wc: nat)
    requires t.Shaped()
  {
    Summary(t, wc).Some? && Bit(Summary(t, wc).value.used, wc % 16)
  }

  /** What big5_wctomb computes as the position in big5_2charset. */
  function Index(t: Tables, wc: nat): nat
    requires t.Shaped() && Encodable(t, wc)
  {
    var summary := Summary(t, wc).value;
    var used := Below(summary.used, wc % 16);
    summary.indx + Num(ParallelCount(used))
  }

  datatype Result = Bytes(b0: nat, b1: nat) | IllegalUnicode | TooSmall

  /** big5_wctomb with room for `n` bytes. */
  function Wctomb(t: Tables, wc: nat, n: nat): Result
    requires t.Sound()
  {
    if n < 2 then TooSmall
    else if Encodable(t, wc) then
      IndexInRange(t, wc);
      var c := t.charset[Index(t, wc)];
      Bytes(c / 0x100, c % 0x100)
    else IllegalUnicode
  }

  // ----- the reference: a linear scan -----

  /** How many code points below `wc` can be encoded. */
  function Scan(t: Tables, wc: nat): nat
    requires t.Shaped()
  {
    if wc == 0 then 0 else Scan(t, wc - 1) + (if Encodable(t, wc - 1) then 1 else 0)
  }

  /** The rows that start below a code point, not counting its own. */
  function RowsBefore(wc: nat): (k: nat)
    ensures k <= 1528
  {
    if wc < 0x100 then wc / 16
    else if wc < 0x200 then 16
    else if wc < 0x460 then 16 + (wc / 16 - 0x20)
    else if wc < 0x2000 then 54
    else if wc < 0x22c0 then 54 + (wc / 16 - 0x200)
    else if wc < 0x2400 then 98
    else if wc < 0x2650 then 98 + (wc / 16 - 0x240)
    else if wc < 0x3000 then 135
    else if wc < 0x33e0 then 135 + (wc / 16 - 0x300)
    else if wc < 0x4e00 then 197
    else if wc < 0x9fb0 then 197 + (wc / 16 - 0x4e0)
    else if wc < 0xfa00 then 1504
    else if wc < 0xfa10 then 1504 + (wc / 16 - 0xfa0)
    else if wc < 0xfe00 then 1505
    else if wc < 0xff70 then 1505 + (wc / 16 - 0xfe0)
    else 1528
  }

  predicate InPage(wc: nat) {
    wc < 0x100 || 0x200 <= wc < 0x460 || 0x2000 <= wc < 0x22c0 || 0x2400 <= wc < 0x2650 ||
    0x3000 <= wc < 0x33e0 || 0x4e00 <= wc < 0x9fb0 || 0xfa00 <= wc < 0xfa10 || 0xfe00 <= wc < 0xff70
  }

  lemma SummaryIsRow(t: Tables, wc: nat)
    requires t.Shaped()
    ensures |t.Rows()| == 1528 && (Summary(t, wc).Some? <==> InPage(wc))
    ensures InPage(wc) ==> RowsBefore(wc) < 1528 && Summary(t, wc) == Some(t.Rows()[RowsBefore(wc)])
  {
  }

  lemma NextCodePoint(wc: nat)
    ensures InPage(wc) && wc % 16 < 15 ==>
            InPage(wc + 1) && RowsBefore(wc + 1) == RowsBefore(wc) && (wc + 1) % 16 == wc % 16 + 1
    ensures InPage(wc) && wc % 16 == 15 ==> RowsBefore(wc + 1) == RowsBefore(wc) + 1 && (wc + 1) % 16 == 0
    ensures !InPage(wc) ==> RowsBefore(wc + 1) == RowsBefore(wc) && (InPage(wc + 1) ==> (wc + 1) % 16 == 0)
  {
  }

  /** The encodable code points in the row of `wc` but below it. */
  function InRow(t: Tables, wc: nat): nat
    requires t.Shaped()
  {
    if Summary(t, wc).Some? then Count(Summary(t, wc).value.used, wc % 16) else 0
  }

  lemma {:induction false} ScanByRows(t: Tables, wc: nat)
    requires t.Shaped()
    ensures RowsBefore(wc) <= |t.Rows()| && Scan(t, wc) == Total(t.Rows(), RowsBefore(wc)) + InRow(t, wc)
  {
    hide Summary, InPage, RowsBefore, Bit, Scan, Total, InRow;
    SummaryIsRow(t, wc);
    if wc == 0 {
      ScanNothing(t);
    } else {
      ScanByRows(t, wc - 1);
      ScanStep(t, wc);
    }
  }

  lemma ScanNothing(t: Tables)
    requires t.Shaped()
    ensures RowsBefore(0) == 0 && Scan(t, 0) == Total(t.Rows(), 0) + InRow(t, 0)
  {
  }

  lemma ScanStep(t: Tables, wc: nat)
    requires t.Shaped() && wc > 0 && |t.Rows()| == 1528
    requires Scan(t, wc - 1) == Total(t.Rows(), RowsBefore(wc - 1)) + InRow(t, wc - 1)
    ensures Scan(t, wc) == Total(t.Rows(), RowsBefore(wc)) + InRow(t, wc)
  {
    hide Summary, InPage, RowsBefore, Bit;
    SummaryIsRow(t, wc);
    SummaryIsRow(t, wc - 1);
    NextCodePoint(wc - 1);
  }

  // ----- main results -----

  /** The rank dictionary agrees with the linear scan. */
  lemma IndexIsScan(t: Tables, wc: nat)
    requires t.Sound() && Encodable(t, wc)
    ensures Index(t, wc) == Scan(t, wc)
  {
    hide Summary, InPage, RowsBefore, Bit, Total, ParallelCount, Count, Scan;
    SummaryIsRow(t, wc);
    ScanByRows(t, wc);
    var used := Summary(t, wc).value.used;
    ParallelCountCounts(Below(used, wc % 16));
    CountBelow(used, wc % 16, 16);
  }

  lemma {:induction false} ScanGrows(t: Tables, low: nat, high: nat)
    requires t.Shaped() && low <= high
    ensures Scan(t, low) <= Scan(t, high)
    ensures low < high && Encodable(t, low) ==> Scan(t, low) < Scan(t, high)
    decreases high
  {
    if low < high {
      ScanGrows(t, low, high - 1);
    }
  }

  lemma IndexInRange(t: Tables, wc: nat)
    requires t.Sound() && Encodable(t, wc)
    ensures Index(t, wc) < |t.charset|
  {
    hide Bit, Index, Scan, Total, Summary, InPage;
    SummaryIsRow(t, wc);
    IndexIsScan(t, wc);
    InPageIsSmall(wc);
    ScanGrows(t, wc, 0x10000);
    ScanByRows(t, 0x10000);
    SummaryIsRow(t, 0x10000);
  }

  lemma InPageIsSmall(wc: nat)
    ensures InPage(wc) ==> wc < 0x10000
    ensures !InPage(0x10000) && RowsBefore(0x10000) == 1528
  {
  }

  /** Larger code points have larger ranks. */
  lemma RanksInOrder(t: Tables, low: nat, high: nat)
    requires t.Sound() && Encodable(t, low) && Encodable(t, high) && low < high
    ensures Index(t, low) < Index(t, high)
  {
    IndexIsScan(t, low);
    IndexIsScan(t, high);
    ScanGrows(t, low, high);
  }

  /** Every rank below the size of the table belongs to a code point. */
  lemma EveryRankIsUsed(t: Tables, k: nat) returns (wc: nat)
    requires t.Sound() && k < |t.charset|
    ensures Encodable(t, wc) && Index(t, wc) == k
  {
    SummaryIsRow(t, 0x10000);
    ScanByRows(t, 0x10000);
    wc := FindRank(t, k, 0x10000);
    IndexIsScan(t, wc);
  }

  lemma {:induction false} FindRank(t: Tables, k: nat, end: nat) returns (wc: nat)
    requires t.Shaped() && k < Scan(t, end)
    ensures Encodable(t, wc) && Scan(t, wc) == k
    decreases end
  {
    if Encodable(t, end - 1) && Scan(t, end - 1) == k {
      wc := end - 1;
    } else {
      wc := FindRank(t, k, end - 1);
    }
  }

  /** big5_wctomb: the code at the rank of the code point, or none. */
  lemma EncodesByRank(t: Tables, wc: nat, n: nat)
    requires t.Sound()
    ensures Wctomb(t, wc, n) == TooSmall <==> n < 2
    ensures Wctomb(t, wc, n) == IllegalUnicode <==> n >= 2 && !Encodable(t, wc)
    ensures n >= 2 && Encodable(t, wc) ==>
              Scan(t, wc) < |t.charset| && Wctomb(t, wc, n).Bytes? && Wctomb(t, wc, n).b1 < 0x100 &&
              t.charset[Scan(t, wc)] == Wctomb(t, wc, n).b0 * 0x100 + Wctomb(t, wc, n).b1
  {
    if n >= 2 && Encodable(t, wc) {
      IndexInRange(t, wc);
      IndexIsScan(t, wc);
    }
  }
}
