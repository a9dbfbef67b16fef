/**
 * Parsing of the order book's newline-delimited records
 * (`extractAsks`, `extractUnusedBids`, `extractDeals`). Each record line is
 * turned into a value by `decode`, which stands for JSON decoding.
 */
module OrderBook {
  import opened Wrappers
  import opened Seqs
  import opened Text
  import opened Orders

  /** The record lines of a response: newlines trimmed from both ends, then split on newlines. */
  function Lines(input: string): (ls: seq<string>)
    ensures |ls| >= 1
  {
    Split(Trim(input))
  }

  /** Every line decoded, one value per line, in line order. */
  function DecodeAll<T>(lines: seq<string>, decode: string -> T): (rs: seq<T>)
    ensures |rs| == |lines|
    ensures forall i :: 0 <= i < |lines| ==> rs[i] == decode(lines[i])
    decreases |lines|
  {
    if lines == [] then []
    else DecodeAll(lines[..|lines| - 1], decode) + [decode(lines[|lines| - 1])]
  }

  /** Decoding an extended prefix appends the decoded new line. */
  lemma DecodeAllSnoc<T>(lines: seq<string>, line: string, decode: string -> T)
    ensures DecodeAll(lines + [line], decode) == DecodeAll(lines, decode) + [decode(line)]
  {
    assert (lines + [line])[..|lines + [line]| - 1] == lines;
  }

  /** The bids of a snapshot that no deal has consumed, in snapshot order. */
  function Unused(bids: seq<Bid>): seq<Bid>
  {
    Filter(bids, IsUnused)
  }

  /** Decoding and filtering an extended prefix only looks at the new line. */
  lemma UnusedSnoc(lines: seq<string>, line: string, decode: string -> Bid)
    ensures Unused(DecodeAll(lines + [line], decode)) ==
      Unused(DecodeAll(lines, decode)) + (if decode(line).used then [] else [decode(line)])
  {
    DecodeAllSnoc(lines, line, decode);
    FilterSnoc(DecodeAll(lines, decode), decode(line), IsUnused);
  }

  /** The decoding loop of `extractAsks` and `extractDeals`: one value per line, appended in line order. */
  method DecodeLines<T>(lines: seq<string>, decode: string -> T) returns (rs: seq<T>)
    ensures |rs| == |lines|
    ensures forall i :: 0 <= i < |lines| ==> rs[i] == decode(lines[i])
  {
    rs := [];
    var i := 0;
    while i < |lines|
      invariant 0 <= i <= |lines|
      invariant rs == DecodeAll(lines[..i], decode)
    {
      DecodeAllSnoc(lines[..i], lines[i], decode);
      assert lines[..i + 1] == lines[..i] + [lines[i]];
      rs := rs + [decode(lines[i])];
      i := i + 1;
    }
    assert lines[..i] == lines;
  }

  /** The decoding loop of `extractUnusedBids`: a bid marked used is skipped with `continue`. */
  method DecodeUnusedBids(lines: seq<string>, decode: string -> Bid) returns (bids: seq<Bid>)
    ensures bids == Unused(DecodeAll(lines, decode))
  {
    bids := [];
    var i := 0;
    while i < |lines|
      invariant 0 <= i <= |lines|
      invariant bids == Unused(DecodeAll(lines[..i], decode))
    {
      var bid := decode(lines[i]);
      UnusedSnoc(lines[..i], lines[i], decode);
      assert lines[..i + 1] == lines[..i] + [lines[i]];
      i := i + 1;
      if bid.used {
        continue;
      }
      bids := bids + [bid];
    }
    assert lines[..i] == lines;
  }

  /**
   * `extractAsks`: a response of one line or fewer is reported as "No Asks yet";
   * otherwise every line is decoded into one ask.
   */
  method ExtractAsks(input: string, decode: string -> Ask) returns (r: Result<seq<Ask>, string>)
    ensures r.Failure? <==> |Lines(input)| <= 1
    ensures r.Failure? ==> r.error == "No Asks yet"
    ensures r.Success? ==> |r.value| == |Lines(input)|
    ensures r.Success? ==> forall i :: 0 <= i < |r.value| ==> r.value[i] == decode(Lines(input)[i])
  {
    var o := Trim(input);
    var lines := Split(o);
    if |lines| <= 1 {
      return Failure("No Asks yet");
    }
    var asks := DecodeLines(lines, decode);
    return Success(asks);
  }

  /**
   * `extractUnusedBids`: a response of one line or fewer is reported as "No Bids yet";
   * otherwise every line is decoded and the bids marked used are skipped.
   */
  method ExtractUnusedBids(input: string, decode: string -> Bid) returns (r: Result<seq<Bid>, string>)
    ensures r.Failure? <==> |Lines(input)| <= 1
    ensures r.Failure? ==> r.error == "No Bids yet"
    ensures r.Success? ==> r.value == Unused(DecodeAll(Lines(input), decode))
    ensures r.Success? ==> forall b :: b in r.value ==> !b.used
  {
    var o := Trim(input);
    var lines := Split(o);
    if |lines| <= 1 {
      return Failure("No Bids yet");
    }
    var bids := DecodeUnusedBids(lines, decode);
    return Success(bids);
  }

  /**
   * `extractDeals`: no length check; every line, even the empty line of an empty
   * response, is decoded into one deal (the source panics on that empty line;
   * `decode` is total here).
   */
  method ExtractDeals(input: string, decode: string -> Deal) returns (deals: seq<Deal>)
    ensures |deals| == |Lines(input)|
    ensures forall i :: 0 <= i < |deals| ==> deals[i] == decode(Lines(input)[i])
  {
    var o := Trim(input);
    var lines := Split(o);
    deals := DecodeLines(lines, decode);
  }

  /** A response is rejected exactly when its trimmed text holds no inner newline. */
  lemma RejectedIffNoInnerNewline(input: string)
    ensures |Lines(input)| <= 1 <==> NL !in Trim(input)
  {
    SplitSingle(Trim(input));
  }

  /** A response holding exactly one record, with or without trailing newlines, gives a single line, so `extractAsks` and `extractUnusedBids` reject it. */
  lemma SingleRecordRejected(record: string, trailing: nat)
    requires NL !in record
    ensures Lines(record + seq(trailing, _ => NL)) == [record]
  {
    TrimAppendedNewlines(record, trailing);
    SplitLine(record);
  }

  /** Lines lose nothing but the outer newlines: they join back to the trimmed response and hold no newline. */
  lemma LinesJoin(input: string)
    ensures Join(Lines(input)) == Trim(input)
    ensures forall l :: l in Lines(input) ==> NL !in l
  {
    JoinSplit(Trim(input));
    SplitPieces(Trim(input));
  }

  /**
   * Records written as newline-delimited text, with any number of trailing
   * newlines, are read back as exactly those lines.
   */
  lemma RecordsRoundTrip(records: seq<string>, trailing: nat)
    requires |records| >= 1
    requires forall l :: l in records ==> NL !in l
    requires records[0] != [] && records[|records| - 1] != []
    ensures Lines(Join(records) + seq(trailing, _ => NL)) == records
  {
    JoinStart(records);
    JoinEnd(records);
    var first, last := records[0], records[|records| - 1];
    assert first in records && last in records;
    assert first[0] in first && last[|last| - 1] in last;
    TrimAppendedNewlines(Join(records), trailing);
    SplitJoin(records);
  }

  /** The joined text starts with the first record's first character. */
  lemma JoinStart(records: seq<string>)
    requires |records| >= 1 && records[0] != []
    ensures |Join(records)| > 0 && Join(records)[0] == records[0][0]
  {
  }

  /** The joined text ends with the last record's last character. */
  lemma {:induction false} JoinEnd(records: seq<string>)
    requires |records| >= 1 && records[|records| - 1] != []
    ensures var j, last := Join(records), records[|records| - 1];
      |j| > 0 && j[|j| - 1] == last[|last| - 1]
    decreases |records|
  {
    if |records| > 1 {
      JoinEnd(records[1..]);
    }
  }

  /** Used bids are removed and nothing else: the unused bids keep every copy they had. */
  lemma UnusedExactly(decoded: seq<Bid>, b: Bid)
    ensures b in Unused(decoded) <==> b in decoded && !b.used
    ensures multiset(Unused(decoded))[b] == if b.used then 0 else multiset(decoded)[b]
  {
    FilterMembership(decoded, IsUnused, b);
    FilterMultiset(decoded, IsUnused, b);
  }
}
