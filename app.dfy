/** The dashboard's batch reader (app.py): one results row per pasted link,
    read from the link's barcode when there is one, otherwise from the first
    OCR fragment whose digits form a meter serial starting with 68. */
module App {
  import opened Outcomes
  import opened Text

  /** What fetching and reading one link gave: either the request or the
      opening of the image raised, or the barcode reader's outcome (payloads
      in its order; decoding the first one from UTF-8 belongs to the reader,
      and a first payload that is not valid UTF-8 is the reader raising)
      together with what the OCR engine gives for the same picture (its text
      fragments in engine order) if it is asked. */
  datatype Capture =
    | Unreachable
    | Captured(symbols: Step<seq<string>>, fragments: Step<seq<string>>)

  /** One row of the results table: position is the "ลำดับ" column, serial
      "เลขซีเรียล", via "วิธีที่ใช้" and link "ลิงก์ภาพ". */
  datatype Row = Row(position: nat, serial: string, via: string, link: string)

  const ScanSuffix := " (Scan)"
  const OcrSuffix := " (OCR)"
  const BarcodeVia := "Barcode"
  const OcrVia := "OCR (Serial)"
  const NoVia := "-"
  const Unreadable := "อ่านไม่ได้"
  const ErrorSerial := "Error"
  const LoadFailed := "โหลดภาพไม่ได้"
  const SerialPrefix := "68"
  const MinSerialDigits := 8
  const MaxSerialDigits := 11

  // ---------------------------------------------------------------------
  // The link list

  /** Every line, stripped. */
  function StripAll(lines: seq<string>): (stripped: seq<string>)
    ensures |stripped| == |lines|
    ensures forall i :: 0 <= i < |lines| ==> stripped[i] == Strip(lines[i])
  {
    seq(|lines|, i requires 0 <= i < |lines| => Strip(lines[i]))
  }

  /** The strings of xs that are not empty, in order. */
  function NonEmpty(xs: seq<string>): (ys: seq<string>)
    ensures |ys| <= |xs|
    ensures forall k :: 0 <= k < |ys| ==> ys[k] != "" && ys[k] in xs
  {
    if xs == [] then []
    else (if xs[0] != "" then [xs[0]] else []) + NonEmpty(xs[1..])
  }

  /** The links pasted into the text area, one per line: each line
      stripped, and the lines that strip to nothing dropped. */
  function ParseUrls(input: string): (urls: seq<string>)
    ensures forall k :: 0 <= k < |urls| ==> urls[k] != "" && IsTrimmed(urls[k])
  {
    NonEmpty(StripAll(SplitLines(input)))
  }

  /** The positions, counted from base, of the strings NonEmpty keeps. */
  function KeptPositions(xs: seq<string>, base: nat): seq<nat>
  {
    if xs == [] then []
    else (if xs[0] != "" then [base] else []) + KeptPositions(xs[1..], base + 1)
  }

  lemma {:induction false} KeptPositionsBounds(xs: seq<string>, base: nat)
    ensures |KeptPositions(xs, base)| == |NonEmpty(xs)|
    ensures forall k :: 0 <= k < |KeptPositions(xs, base)| ==>
              base <= KeptPositions(xs, base)[k] < base + |xs|
    ensures forall k, m :: 0 <= k < m < |KeptPositions(xs, base)| ==>
              KeptPositions(xs, base)[k] < KeptPositions(xs, base)[m]
    decreases |xs|
  {
    if xs != [] {
      KeptPositionsBounds(xs[1..], base + 1);
    }
  }

  lemma {:induction false} KeptPositionsPick(xs: seq<string>, base: nat)
    ensures |KeptPositions(xs, base)| == |NonEmpty(xs)|
    ensures forall k :: 0 <= k < |NonEmpty(xs)| ==>
              base <= KeptPositions(xs, base)[k] < base + |xs|
              && NonEmpty(xs)[k] == xs[KeptPositions(xs, base)[k] - base]
    decreases |xs|
  {
    KeptPositionsBounds(xs, base);
    if xs != [] {
      KeptPositionsPick(xs[1..], base + 1);
      var p, tail := KeptPositions(xs, base), KeptPositions(xs[1..], base + 1);
      var offset := |p| - |tail|;
      forall k | offset <= k < |p|
        ensures NonEmpty(xs)[k] == xs[p[k] - base]
      {
        assert p[k] == tail[k - offset];
        assert NonEmpty(xs)[k] == NonEmpty(xs[1..])[k - offset];
        assert xs[p[k] - base] == xs[1..][tail[k - offset] - (base + 1)];
      }
    }
  }

  lemma {:induction false} KeptPositionsComplete(xs: seq<string>, base: nat)
    ensures forall i :: 0 <= i < |xs| && xs[i] != "" ==> base + i in KeptPositions(xs, base)
    decreases |xs|
  {
    if xs != [] {
      KeptPositionsComplete(xs[1..], base + 1);
      forall i | 1 <= i < |xs| && xs[i] != "" ensures base + i in KeptPositions(xs, base) {
        assert xs[1..][i - 1] == xs[i];
      }
    }
  }

  /** NonEmpty keeps xs[from[k]] as its k-th element, the positions it keeps
      increase, and every position it drops holds the empty string. */
  lemma NonEmptyInOrder(xs: seq<string>) returns (from: seq<nat>)
    ensures |from| == |NonEmpty(xs)|
    ensures forall k :: 0 <= k < |from| ==> from[k] < |xs| && NonEmpty(xs)[k] == xs[from[k]]
    ensures forall k, m :: 0 <= k < m < |from| ==> from[k] < from[m]
    ensures forall i :: 0 <= i < |xs| && i !in from ==> xs[i] == ""
  {
    from := KeptPositions(xs, 0);
    KeptPositionsBounds(xs, 0);
    KeptPositionsPick(xs, 0);
    KeptPositionsComplete(xs, 0);
  }

  /** Each link is a stripped line of the input (the input's pieces between
      newlines), the links keep the order of their lines, and every line that
      gives no link is blank. */
  lemma UrlsAreStrippedLines(input: string) returns (from: seq<nat>)
    ensures |from| == |ParseUrls(input)|
    ensures forall k :: 0 <= k < |from| ==>
              from[k] < |SplitLines(input)| && ParseUrls(input)[k] == Strip(SplitLines(input)[from[k]])
    ensures forall k, m :: 0 <= k < m < |from| ==> from[k] < from[m]
    ensures forall i :: 0 <= i < |SplitLines(input)| && i !in from ==> AllSpace(SplitLines(input)[i])
  {
    from := NonEmptyInOrder(StripAll(SplitLines(input)));
  }

  /** NonEmpty drops everything exactly when everything is empty. */
  lemma {:induction false} NonEmptyIsEmpty(xs: seq<string>)
    ensures NonEmpty(xs) == [] <==> forall k :: 0 <= k < |xs| ==> xs[k] == ""
    decreases |xs|
  {
    if xs != [] {
      NonEmptyIsEmpty(xs[1..]);
      assert forall k :: 1 <= k < |xs| ==> xs[k] == xs[1..][k - 1];
    }
  }

  /** The text area is blank (the warning is shown instead of a table)
      exactly when it holds no link. */
  lemma BlankInputHasNoUrls(input: string)
    ensures Strip(input) == "" <==> ParseUrls(input) == []
  {
    var lines := SplitLines(input);
    JoinSplitLines(input);
    JoinLinesAllSpace(lines);
    NonEmptyIsEmpty(StripAll(lines));
  }

  // ---------------------------------------------------------------------
  // The OCR filter

  /** A cleaned OCR fragment that is taken for a meter serial. */
  predicate IsMeterSerial(clean: string)
  {
    StartsWith(clean, SerialPrefix) && MinSerialDigits <= |clean| <= MaxSerialDigits
  }

  /** The cleaned form of the first fragment, in engine order, that is a
      meter serial; later fragments are not looked at. */
  function FirstMeterSerial(fragments: seq<string>): (serial: Option<string>)
    ensures serial.Some? ==> IsMeterSerial(serial.value) && AllDigits(serial.value)
  {
    if fragments == [] then None
    else if IsMeterSerial(Digits(fragments[0])) then Some(Digits(fragments[0]))
    else FirstMeterSerial(fragments[1..])
  }

  /** Fragment k is a meter serial once cleaned, and no earlier one is. */
  ghost predicate FirstSerialAt(fragments: seq<string>, k: nat)
  {
    && k < |fragments|
    && IsMeterSerial(Digits(fragments[k]))
    && forall j :: 0 <= j < k ==> !IsMeterSerial(Digits(fragments[j]))
  }

  /** The first qualifying fragment wins. */
  lemma {:induction false} FirstSerialWins(fragments: seq<string>, k: nat)
    requires FirstSerialAt(fragments, k)
    ensures FirstMeterSerial(fragments) == Some(Digits(fragments[k]))
    decreases k
  {
    if k > 0 {
      assert FirstSerialAt(fragments[1..], k - 1) by {
        forall j | 0 <= j < k - 1 ensures !IsMeterSerial(Digits(fragments[1..][j])) {
          assert fragments[1..][j] == fragments[j + 1];
        }
      }
      FirstSerialWins(fragments[1..], k - 1);
    }
  }

  /** Conversely, a serial that is found comes from the first qualifying
      fragment. */
  lemma {:induction false} FoundSerialIsFirst(fragments: seq<string>)
    ensures FirstMeterSerial(fragments).Some? ==>
              exists k: nat :: FirstSerialAt(fragments, k)
                               && FirstMeterSerial(fragments) == Some(Digits(fragments[k]))
    decreases |fragments|
  {
    if fragments != [] && !IsMeterSerial(Digits(fragments[0])) && FirstMeterSerial(fragments).Some? {
      FoundSerialIsFirst(fragments[1..]);
      var k: nat :| FirstSerialAt(fragments[1..], k)
                    && FirstMeterSerial(fragments[1..]) == Some(Digits(fragments[1..][k]));
      assert fragments[1..][k] == fragments[k + 1];
      forall j | 0 <= j < k + 1 ensures !IsMeterSerial(Digits(fragments[j])) {
        if j > 0 { assert fragments[j] == fragments[1..][j - 1]; }
      }
      assert FirstSerialAt(fragments, k + 1);
    } else if fragments != [] && IsMeterSerial(Digits(fragments[0])) {
      assert FirstSerialAt(fragments, 0);
    }
  }

  /** No serial is found exactly when no fragment qualifies. */
  lemma {:induction false} NoSerialIffNoneQualifies(fragments: seq<string>)
    ensures FirstMeterSerial(fragments) == None
            <==> forall k :: 0 <= k < |fragments| ==> !IsMeterSerial(Digits(fragments[k]))
    decreases |fragments|
  {
    if fragments != [] {
      NoSerialIffNoneQualifies(fragments[1..]);
      assert forall k :: 1 <= k < |fragments| ==> fragments[k] == fragments[1..][k - 1];
    }
  }

  // ---------------------------------------------------------------------
  // One row per link

  function ErrorRow(idx: nat, url: string): Row
  {
    Row(idx + 1, ErrorSerial, LoadFailed, url)
  }

  /** Something in the try block raised: the fetch or the opening, the
      barcode reader, or the OCR engine when it is asked. */
  predicate Faulted(capture: Capture)
  {
    || capture.Unreachable?
    || capture.symbols.Raised?
    || (capture.symbols == Ok([]) && capture.fragments.Raised?)
  }

  /** The row for the link at index idx. */
  function RowFor(idx: nat, url: string, capture: Capture): (row: Row)
    ensures row.position == idx + 1 && row.link == url
  {
    if Faulted(capture) then ErrorRow(idx, url)
    else if capture.symbols.value != [] then
      Row(idx + 1, capture.symbols.value[0] + ScanSuffix, BarcodeVia, url)
    else match FirstMeterSerial(capture.fragments.value)
      case Some(serial) => Row(idx + 1, serial + OcrSuffix, OcrVia, url)
      case None => Row(idx + 1, Unreadable, NoVia, url)
  }

  /** The body of the loop for one link. The ghost flag records whether the
      OCR engine was asked. */
  method ReadUrl(idx: nat, url: string, capture: Capture) returns (row: Row, ghost ocrRan: bool)
    ensures row == RowFor(idx, url, capture)
    ensures ocrRan <==> capture.Captured? && capture.symbols == Ok([])
  {
    ocrRan := false;
    if capture.Unreachable? || capture.symbols.Raised? {
      return ErrorRow(idx, url), ocrRan;
    }
    var decoded := capture.symbols.value;
    var foundData := "";
    var via := "";
    if decoded != [] {
      var rawSerial := decoded[0];
      foundData := rawSerial + ScanSuffix;
      via := BarcodeVia;
    } else {
      ocrRan := true;
      if capture.fragments.Raised? {
        return ErrorRow(idx, url), ocrRan;
      }
      var ocrRes := capture.fragments.value;
      var i := 0;
      while i < |ocrRes|
        invariant 0 <= i <= |ocrRes|
        invariant foundData == ""
        invariant FirstMeterSerial(ocrRes) == FirstMeterSerial(ocrRes[i..])
      {
        var text := ocrRes[i];
        var clean := Digits(text);
        if StartsWith(clean, SerialPrefix) && MinSerialDigits <= |clean| <= MaxSerialDigits {
          foundData := clean + OcrSuffix;
          via := OcrVia;
          break;
        }
        assert ocrRes[i..][1..] == ocrRes[i + 1..];
        i := i + 1;
      }
    }
    row := Row(idx + 1, if foundData != "" then foundData else Unreadable,
               if foundData != "" then via else NoVia, url);
  }

  /** The loop over the links: exactly one row per link, in order, row k
      for link k, whatever happened to the other links. */
  method ProcessUrls(urls: seq<string>, capture: (nat, string) -> Capture)
    returns (results: seq<Row>)
    ensures |results| == |urls|
    ensures forall k :: 0 <= k < |urls| ==> results[k] == RowFor(k, urls[k], capture(k, urls[k]))
  {
    results := [];
    for idx := 0 to |urls|
      invariant |results| == idx
      invariant forall k :: 0 <= k < idx ==> results[k] == RowFor(k, urls[k], capture(k, urls[k]))
    {
      var url := urls[idx];
      var row;
      ghost var ocrRan;
      row, ocrRan := ReadUrl(idx, url, capture(idx, url));
      results := results + [row];
    }
  }

  /** The start button: a warning (None) when the text area is blank,
      otherwise the table, which then has at least one row. */
  method StartButton(urlsInput: string, capture: (nat, string) -> Capture)
    returns (table: Option<seq<Row>>)
    ensures table.None? <==> Strip(urlsInput) == ""
    ensures table.Some? ==>
              var urls := ParseUrls(urlsInput);
              && table.value != []
              && |table.value| == |urls|
              && forall k :: 0 <= k < |urls| ==> table.value[k] == RowFor(k, urls[k], capture(k, urls[k]))
  {
    if Strip(urlsInput) == "" {
      return None;
    }
    var urls := ParseUrls(urlsInput);
    BlankInputHasNoUrls(urlsInput);
    var results := ProcessUrls(urls, capture);
    return Some(results);
  }

  // ---------------------------------------------------------------------
  // What the rows say

  /** Once the barcode reader finds a symbol, the OCR engine is not asked:
      the row is the first payload marked " (Scan)", whatever OCR would
      have given or raised. */
  lemma BarcodeWins(idx: nat, url: string, symbols: seq<string>, f1: Step<seq<string>>, f2: Step<seq<string>>)
    requires symbols != []
    ensures RowFor(idx, url, Captured(Ok(symbols), f1)) == RowFor(idx, url, Captured(Ok(symbols), f2))
    ensures RowFor(idx, url, Captured(Ok(symbols), f1)).serial == symbols[0] + ScanSuffix
    ensures RowFor(idx, url, Captured(Ok(symbols), f1)).via == BarcodeVia
  {
  }

  /** An OCR row carries a serial of 8 to 11 digits starting with 68, taken
      from the first qualifying fragment and marked " (OCR)". */
  lemma OcrRowShape(idx: nat, url: string, fragments: seq<string>)
    requires RowFor(idx, url, Captured(Ok([]), Ok(fragments))).via == OcrVia
    ensures exists k: nat :: FirstSerialAt(fragments, k)
              && var serial := Digits(fragments[k]);
                 && RowFor(idx, url, Captured(Ok([]), Ok(fragments))).serial == serial + OcrSuffix
                 && StartsWith(serial, SerialPrefix) && AllDigits(serial)
                 && MinSerialDigits <= |serial| <= MaxSerialDigits
  {
    FoundSerialIsFirst(fragments);
  }

  /** Each row reports one of four outcomes, and which one is decided by
      the capture alone: barcode, OCR, nothing readable, or an error. */
  lemma RowOutcomes(idx: nat, url: string, capture: Capture)
    ensures var row := RowFor(idx, url, capture);
            && (row.via == BarcodeVia || row.via == OcrVia || row.via == NoVia || row.via == LoadFailed)
            && (row.serial == ErrorSerial <==> Faulted(capture))
            && (row.via == LoadFailed <==> Faulted(capture))
            && (row.via == BarcodeVia <==> !Faulted(capture) && capture.symbols.value != [])
            && (row.via == NoVia <==>
                  (&& !Faulted(capture) && capture.symbols.value == []
                   && forall k :: 0 <= k < |capture.fragments.value| ==>
                        !IsMeterSerial(Digits(capture.fragments.value[k]))))
            && (row.via == NoVia ==> row.serial == Unreadable)
  {
    if !Faulted(capture) && capture.symbols.value == [] {
      NoSerialIffNoneQualifies(capture.fragments.value);
    }
  }
}
