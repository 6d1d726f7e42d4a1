/**
 From the application's scanlines to whole iMCU rows: jpeg_write_scanlines, the main buffer and
 the preprocessor, when the compressor may refuse an iMCU row and is offered it again later.
 */
module RowFeeder {
  import opened RowModel
  import opened Answers

  /** compress_data, as the main buffer sees it: it takes an iMCU row or refuses it. */
  class Compressor {
    const script: seq<bool>
    var decisions: seq<bool>
    var received: seq<seq<Group>>
    ghost var answers: seq<bool>
    ghost var offered: seq<seq<Group>>

    constructor (decisions: seq<bool>)
      ensures this.decisions == script == decisions && received == [] && answers == [] && offered == []
    {
      script, this.decisions, received, answers, offered := decisions, decisions, [], [], [];
    }

    /** It has answered as decided beforehand, and from then on with yes. */
    ghost predicate Scripted()
      reads this
    {
      |offered| == |answers| && decisions == (if |answers| <= |script| then script[|answers|..] else []) &&
      forall k :: 0 <= k < |answers| ==> answers[k] == (k >= |script| || script[k])
    }

    /** It has been offered the iMCU rows of an image one after the other, each until it took it. */
    ghost predicate Aligned(img: Image)
      requires img.Valid()
      reads this
    {
      |offered| == |answers| && forall k: nat {:trigger OfferedAt(img, k)} :: k < |offered| ==> OfferedAt(img, k)
    }

    ghost predicate OfferedAt(img: Image, k: nat)
      requires img.Valid() && k < |offered| == |answers|
      reads this
    {
      var i := Accepted(answers[..k]);
      i < img.IMcuRows() && offered[k] == img.IMcuRow(i)
    }

    method CompressData(buffer: array<Group>, ghost img: Image) returns (ok: bool)
      requires img.Valid() && Scripted() && Aligned(img) && Accepted(answers) < img.IMcuRows() && buffer[..] == img.IMcuRow(Accepted(answers))
      modifies this
      ensures ok == (old(decisions) == [] || old(decisions)[0])
      ensures decisions == if old(decisions) == [] then [] else old(decisions)[1..]
      ensures received == if ok then old(received) + [buffer[..]] else old(received)
      ensures answers == old(answers) + [ok] && Scripted() && Aligned(img)
    {
      ok := decisions == [] || decisions[0];
      if decisions != [] {
        decisions := decisions[1..];
      }
      if ok {
        received := received + [buffer[..]];
      }
      AcceptedNext(answers, ok);
      answers, offered := answers + [ok], offered + [buffer[..]];
      forall k: nat | k < |offered| ensures OfferedAt(img, k) {
        assert k < |old(offered)| ==> old(OfferedAt(img, k));
      }
    }
  }

  class Feeder {
    const img: Image
    const coef: Compressor
    const colorBuf: array<Row>
    const buffer: array<Group>
    var nextScanline: nat
    var rowsToGo: nat
    var nextBufRow: nat
    var rowgroupCtr: nat
    var curIMCURow: nat
    var suspended: bool

    constructor (img: Image, coef: Compressor)
      requires img.Valid() && coef.received == [] && coef.answers == [] && coef.Scripted()
      ensures this.img == img && this.coef == coef && Valid() && Resting() && nextScanline == 0 && fresh(colorBuf) && fresh(buffer)
    {
      this.img, this.coef := img, coef;
      colorBuf := new Row[img.v](_ => []);
      buffer := new Group[DCTSIZE](_ => []);
      nextScanline, rowsToGo, nextBufRow, rowgroupCtr, curIMCURow, suspended := 0, |img.rows|, 0, 0, 0, false;
      img.NextStart(0);
      img.StartInside(0);
    }

    ghost function Absorbed(): int
      reads this
    {
      |img.rows| - rowsToGo
    }

    /** Row groups in or before the main buffer. */
    ghost function Done(): nat
      reads this
    {
      DCTSIZE * curIMCURow + rowgroupCtr
    }

    /** What the buffers hold is the image's; what has been accepted are its first iMCU rows. */
    ghost predicate Shaped()
      reads this, buffer, coef
    {
      img.Valid() && colorBuf.Length == img.v && buffer.Length == DCTSIZE && rowgroupCtr <= DCTSIZE && rowsToGo <= |img.rows| &&
      (forall k: nat :: k < rowgroupCtr ==> buffer[k] == img.GroupAt(DCTSIZE * curIMCURow + k)) &&
      coef.received == img.IMcuRowsUpTo(curIMCURow) && Accepted(coef.answers) == curIMCURow && coef.Scripted() && coef.Aligned(img)
    }

    /** The conversion buffer holds the rows of a group absorbed so far. */
    ghost predicate Converting()
      requires img.Valid() && colorBuf.Length == img.v
      reads this, colorBuf
    {
      nextBufRow <= img.v && img.Start(Done()) + nextBufRow == Absorbed() && curIMCURow < img.IMcuRows() &&
      forall k: nat :: k < nextBufRow ==> img.Start(Done()) + k < |img.rows| && colorBuf[k] == img.rows[img.Start(Done()) + k]
    }

    ghost predicate Valid()
      reads this, buffer, colorBuf, coef
    {
      Shaped() &&
      if rowsToGo > 0 then nextBufRow < img.v && Converting()
      else nextBufRow == 0 && Done() == DCTSIZE * img.IMcuRows() && (rowgroupCtr == 0 || rowgroupCtr == DCTSIZE)
    }

    /** Between calls: one row less than absorbed is counted while a full iMCU row waits for the compressor. */
    ghost predicate Resting()
      reads this
    {
      nextScanline == Absorbed() - (if suspended then 1 else 0) && (suspended <==> rowgroupCtr == DCTSIZE)
    }

    /** The rows still available continue the image. */
    ghost predicate Continues(input: seq<Row>, ctr: nat, avail: nat)
      reads this
    {
      avail <= |input| && (ctr <= avail ==> Absorbed() + avail - ctr <= |img.rows|) &&
      forall k: nat :: ctr <= k < avail ==> 0 <= Absorbed() + k - ctr < |img.rows| && input[k] == img.rows[Absorbed() + k - ctr]
    }

    /** Convert rows into the conversion buffer, as many as there are and as fit. */
    method ConvertRows(input: seq<Row>, ctr: nat, avail: nat) returns (n: nat)
      requires Valid() && rowsToGo > 0 && rowgroupCtr < DCTSIZE && ctr < avail && Continues(input, ctr, avail)
      modifies this`nextBufRow, this`rowsToGo, colorBuf
      ensures 1 <= n <= avail - ctr && rowsToGo == old(rowsToGo) - n && nextBufRow == old(nextBufRow) + n
      ensures Shaped() && Converting() && Continues(input, ctr + n, avail) && (nextBufRow == img.v || ctr + n == avail)
    {
      n := img.v - nextBufRow;
      if avail - ctr < n {
        n := avail - ctr;
      }
      forall j | 0 <= j < n {
        colorBuf[nextBufRow + j] := input[ctr + j];
      }
      forall k: nat | k < nextBufRow + n
        ensures img.Start(Done()) + k < |img.rows| && colorBuf[k] == img.rows[img.Start(Done()) + k]
      {
        if k >= nextBufRow {
          assert colorBuf[nextBufRow + (k - nextBufRow)] == input[ctr + (k - nextBufRow)];
        }
      }
      nextBufRow := nextBufRow + n;
      rowsToGo := rowsToGo - n;
    }

    /** Once the rows are used up, the conversion buffer is completed with copies of the last one. */
    method ExpandBottom()
      requires Shaped() && Converting() && rowsToGo == 0 && 1 <= nextBufRow
      modifies this`nextBufRow, colorBuf
      ensures nextBufRow == img.v && colorBuf[..] == img.Rows(Done())
    {
      var from := nextBufRow;
      for row := from to img.v
        invariant forall k: nat :: k < from ==> colorBuf[k] == old(colorBuf[k])
        invariant forall k: nat :: from <= k < row ==> colorBuf[k] == colorBuf[from - 1]
      {
        colorBuf[row] := colorBuf[from - 1];
      }
      nextBufRow := img.v;
      assert colorBuf[from - 1] == img.rows[|img.rows| - 1];
    }

    /** Downsample a full conversion buffer into the main buffer. */
    method EmptyConversionBuffer()
      requires Shaped() && rowgroupCtr < DCTSIZE && Done() < img.Groups() && colorBuf[..] == img.Rows(Done())
      modifies this`nextBufRow, this`rowgroupCtr, buffer
      ensures Shaped() && nextBufRow == 0 && rowgroupCtr == old(rowgroupCtr) + 1
    {
      buffer[rowgroupCtr] := img.down(colorBuf[..]);
      nextBufRow := 0;
      rowgroupCtr := rowgroupCtr + 1;
    }

    /** Once the rows are used up, the main buffer is completed with copies of its last row. */
    method PadBuffer()
      requires Shaped() && 1 <= rowgroupCtr < DCTSIZE && Done() == img.Groups()
      modifies this`rowgroupCtr, buffer
      ensures Shaped() && rowgroupCtr == DCTSIZE
    {
      var from := rowgroupCtr;
      for g := from to DCTSIZE
        invariant forall k: nat :: k < from ==> buffer[k] == old(buffer[k])
        invariant forall k: nat :: from <= k < g ==> buffer[k] == img.pad(buffer[from - 1])
      {
        buffer[g] := img.pad(buffer[from - 1]);
      }
      assert buffer[from - 1] == img.GroupAt(DCTSIZE * curIMCURow + (from - 1));
      rowgroupCtr := DCTSIZE;
    }

    /** After rows have been converted: complete the group if it is full or the image is at its end. */
    method CompleteGroup()
      requires Shaped() && Converting() && rowgroupCtr < DCTSIZE && 1 <= nextBufRow
      modifies this`nextBufRow, this`rowgroupCtr, colorBuf, buffer
      ensures Valid() && (nextBufRow == old(nextBufRow) || nextBufRow == 0) && rowgroupCtr >= old(rowgroupCtr)
      ensures rowsToGo == 0 ==> rowgroupCtr == DCTSIZE
    {
      img.StartInside(Done());
      img.StartInside(Done() + 1);
      img.NextStart(Done());
      if rowsToGo == 0 && nextBufRow < img.v {
        ExpandBottom();
      } else if nextBufRow == img.v {
        assert colorBuf[..] == img.Rows(Done());
      }
      if nextBufRow == img.v {
        EmptyConversionBuffer();
      }
      if rowsToGo == 0 && rowgroupCtr < DCTSIZE {
        PadBuffer();
      }
    }

    /** pre_process_data: absorb rows until the main buffer is full or the input is used up. */
    method PreProcessData(input: seq<Row>, ctr: nat, avail: nat) returns (ctr': nat)
      requires Valid() && rowgroupCtr < DCTSIZE && Continues(input, ctr, avail)
      modifies this`nextBufRow, this`rowsToGo, this`rowgroupCtr, colorBuf, buffer
      ensures Valid() && ctr' >= ctr && (ctr' == ctr || ctr' <= avail) && Continues(input, ctr', avail)
      ensures rowsToGo == old(rowsToGo) - (ctr' - ctr)
      ensures rowgroupCtr == DCTSIZE || ctr' >= avail
      ensures rowgroupCtr == DCTSIZE ==> ctr' > ctr
    {
      ctr' := ctr;
      while ctr' < avail && rowgroupCtr < DCTSIZE
        invariant Valid() && ctr' >= ctr && (ctr' == ctr || ctr' <= avail) && Continues(input, ctr', avail)
        invariant rowsToGo == old(rowsToGo) - (ctr' - ctr)
        invariant rowgroupCtr == DCTSIZE ==> ctr' > ctr
        decreases rowsToGo
      {
        var n := ConvertRows(input, ctr', avail);
        ctr' := ctr' + n;
        CompleteGroup();
      }
    }

    /** The input goes on where the application has been told it stands. */
    ghost predicate Offered(input: seq<Row>, avail: nat)
      reads this
    {
      avail <= |input| && nextScanline + avail <= |img.rows| &&
      forall k: nat :: k < avail ==> input[k] == img.rows[nextScanline + k]
    }

    /** During a call: rows counted, and one more if one is being held back. */
    ghost predicate Counting(ctr: nat)
      reads this
    {
      nextScanline + ctr + (if suspended then 1 else 0) == Absorbed() && (suspended ==> rowgroupCtr == DCTSIZE)
    }

    /** The compressor has taken the iMCU row: make the main buffer empty. */
    method Advance()
      requires img.Valid() && colorBuf.Length == img.v && buffer.Length == DCTSIZE && rowgroupCtr == DCTSIZE && curIMCURow < img.IMcuRows()
      requires rowsToGo <= |img.rows| && coef.received == img.IMcuRowsUpTo(curIMCURow) + [img.IMcuRow(curIMCURow)]
      requires Accepted(coef.answers) == curIMCURow + 1 && coef.Scripted() && coef.Aligned(img)
      requires if rowsToGo > 0 then nextBufRow < img.v && Converting() else nextBufRow == 0 && Done() == DCTSIZE * img.IMcuRows()
      modifies this`rowgroupCtr, this`curIMCURow
      ensures Valid() && rowgroupCtr == 0 && curIMCURow == old(curIMCURow) + 1
    {
      img.StartInside(Done());
      rowgroupCtr := 0;
      curIMCURow := curIMCURow + 1;
    }

    /**
     process_data_simple_main: fill the main buffer, offer it, and go on.  When an iMCU row is refused
     the last row of the input counts as not consumed, so that the application comes back.
     */
    method ProcessData(input: seq<Row>, avail: nat) returns (ctr: nat)
      requires Valid() && Resting() && Offered(input, avail)
      modifies this`nextBufRow, this`rowsToGo, this`rowgroupCtr, this`curIMCURow, this`suspended, colorBuf, buffer, coef
      ensures Valid() && Counting(ctr) && (suspended <==> rowgroupCtr == DCTSIZE)
      ensures !suspended ==> ctr >= avail
      ensures ctr <= avail || (old(suspended) && avail == 0 && ctr == 1)
      ensures |coef.decisions| <= |old(coef.decisions)| && (suspended ==> |coef.decisions| < |old(coef.decisions)|)
      ensures suspended ==> exists k :: 0 <= k < |old(coef.decisions)| && !old(coef.decisions)[k]
    {
      ctr := 0;
      ghost var calls: nat := 0;
      var more := true;
      while curIMCURow < img.IMcuRows() && more
        invariant Between(input, ctr, avail) && (more && suspended ==> ctr == 0 && old(suspended))
        invariant ctr <= avail || (old(suspended) && avail == 0 && ctr == 1)
        invariant calls <= |old(coef.decisions)| && coef.decisions == old(coef.decisions)[calls..]
        invariant !more ==> if suspended then 0 < calls && !old(coef.decisions)[calls - 1] else ctr >= avail
        decreases img.IMcuRows() - curIMCURow, more
      {
        ghost var called;
        more, ctr, called := Round(input, ctr, avail);
        if called && calls < |old(coef.decisions)| {
          calls := calls + 1;
        }
      }
    }

    /** Between iMCU rows of a call. */
    ghost predicate Between(input: seq<Row>, ctr: nat, avail: nat)
      reads this, buffer, colorBuf, coef
    {
      Valid() && Counting(ctr) && Continues(input, ctr + (if suspended then 1 else 0), avail) && (suspended <==> rowgroupCtr == DCTSIZE)
    }

    /** One iMCU row: fill the main buffer if there is input for it, and offer it if it is full. */
    method Round(input: seq<Row>, ctr: nat, avail: nat) returns (more: bool, ctr': nat, ghost called: bool)
      requires Between(input, ctr, avail) && curIMCURow < img.IMcuRows() && (suspended ==> ctr == 0)
      modifies this`nextBufRow, this`rowsToGo, this`rowgroupCtr, this`curIMCURow, this`suspended, colorBuf, buffer, coef
      ensures Between(input, ctr', avail) && (more ==> !suspended && curIMCURow == old(curIMCURow) + 1)
      ensures !more ==> curIMCURow == old(curIMCURow) && (suspended || ctr' >= avail)
      ensures ctr' <= avail || ctr' == ctr || (old(suspended) && ctr' == 1)
      ensures suspended ==> called && old(coef.decisions) != [] && !old(coef.decisions)[0]
      ensures coef.decisions == if called && old(coef.decisions) != [] then old(coef.decisions)[1..] else old(coef.decisions)
    {
      more, ctr', called := false, ctr, false;
      if rowgroupCtr < DCTSIZE {
        ctr' := PreProcessData(input, ctr, avail);
      }
      if rowgroupCtr == DCTSIZE {
        more, ctr' := OfferRow(ctr');
        called := true;
      }
    }

    /** One call of the compressor, with the iMCU row that is next. */
    method Offer() returns (ok: bool)
      requires Valid() && rowgroupCtr == DCTSIZE && curIMCURow < img.IMcuRows()
      modifies coef
      ensures ok == (old(coef.decisions) == [] || old(coef.decisions)[0])
      ensures coef.decisions == if old(coef.decisions) == [] then [] else old(coef.decisions)[1..]
      ensures coef.Scripted() && coef.Aligned(img) && Accepted(coef.answers) == curIMCURow + if ok then 1 else 0
      ensures coef.received == img.IMcuRowsUpTo(curIMCURow) + if ok then [img.IMcuRow(curIMCURow)] else []
    {
      assert buffer[..] == img.IMcuRow(curIMCURow);
      AcceptedNext(coef.answers, true);
      AcceptedNext(coef.answers, false);
      ok := coef.CompressData(buffer, img);
    }

    /** Offer a full main buffer to the compressor; a refusal, and its end, are kept in the count. */
    method OfferRow(ctr: nat) returns (ok: bool, ctr': nat)
      requires Valid() && Counting(ctr) && rowgroupCtr == DCTSIZE && curIMCURow < img.IMcuRows() && (suspended || ctr > 0)
      modifies this`rowgroupCtr, this`curIMCURow, this`suspended, coef
      ensures Valid() && Counting(ctr')
      ensures ctr' == ctr + (if old(suspended) then 1 else 0) - (if suspended then 1 else 0)
      ensures ok == (old(coef.decisions) == [] || old(coef.decisions)[0]) && suspended == !ok
      ensures coef.decisions == if old(coef.decisions) == [] then [] else old(coef.decisions)[1..]
      ensures if ok then rowgroupCtr == 0 && curIMCURow == old(curIMCURow) + 1 else rowgroupCtr == DCTSIZE && curIMCURow == old(curIMCURow)
    {
      ctr' := ctr;
      ok := Offer();
      if !ok {
        if !suspended {
          ctr' := ctr' - 1;
          suspended := true;
        }
        return;
      }
      if suspended {
        ctr' := ctr' + 1;
        suspended := false;
      }
      Advance();
    }

    /** jpeg_write_scanlines: what it returns, and has counted, is what the application need not send again. */
    method WriteScanlines(scanlines: seq<Row>, numLines: nat) returns (written: nat)
      requires Valid() && Resting() && Offered(scanlines, if numLines > |img.rows| - nextScanline then |img.rows| - nextScanline else numLines)
      modifies this, colorBuf, buffer, coef
      ensures Valid() && Resting() && nextScanline == old(nextScanline) + written
      ensures nextScanline <= |img.rows| && (nextScanline == |img.rows| <==> curIMCURow == img.IMcuRows())
      ensures !suspended && numLines > 0 ==> nextScanline == if old(nextScanline) + numLines > |img.rows| then |img.rows| else old(nextScanline) + numLines
      ensures |coef.decisions| <= |old(coef.decisions)| && (suspended ==> |coef.decisions| < |old(coef.decisions)|)
      ensures suspended ==> exists k :: 0 <= k < |old(coef.decisions)| && !old(coef.decisions)[k]
    {
      var n := numLines;
      var rowsLeft := |img.rows| - nextScanline;
      if n > rowsLeft {
        n := rowsLeft;
      }
      written := ProcessData(scanlines, n);
      nextScanline := nextScanline + written;
    }
  }

  /** The application's loop, with any batch sizes and any refusals: the compressor accepts the image's iMCU rows, each once and in order. */
  method WriteImage(feeder: Feeder, batches: seq<nat>)
    requires feeder.Valid() && feeder.Resting() && feeder.nextScanline == 0 && forall k :: 0 <= k < |batches| ==> batches[k] > 0
    modifies feeder, feeder.colorBuf, feeder.buffer, feeder.coef
    ensures feeder.Valid() && feeder.nextScanline == |feeder.img.rows|
    ensures feeder.coef.received == feeder.img.IMcuRowsUpTo(feeder.img.IMcuRows())
    ensures feeder.coef.Scripted() && feeder.coef.Aligned(feeder.img) && Stops(feeder.coef.answers, feeder.img.IMcuRows())
  {
    var rows, k := feeder.img.rows, 0;
    while feeder.nextScanline < |rows|
      invariant feeder.Valid() && feeder.Resting() && feeder.nextScanline <= |rows|
      invariant feeder.nextScanline == |rows| <==> feeder.curIMCURow == feeder.img.IMcuRows()
      decreases |feeder.coef.decisions|, |rows| - feeder.nextScanline
    {
      var n := if k < |batches| then batches[k] else 1;
      var written := feeder.WriteScanlines(rows[feeder.nextScanline..], n);
      k := k + 1;
    }
    AlignedStops(feeder.coef, feeder.img);
  }

  /** No row is offered after the last has been taken, so the last answer was yes. */
  lemma AlignedStops(coef: Compressor, img: Image)
    requires img.Valid() && coef.Aligned(img) && Accepted(coef.answers) == img.IMcuRows()
    ensures Stops(coef.answers, img.IMcuRows())
  {
    img.StartInside(0);
    assert coef.OfferedAt(img, |coef.answers| - 1);
  }
}
