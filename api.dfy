/** The upload endpoint's serial reader (process_image_logic in api.py):
    three renderings of the picture, four rotations of each, and the first
    barcode payload of at least four characters wins. */
module Api {
  import opened Outcomes

  /** The renderings of the uploaded picture: its grayscale conversion, that
      image auto-contrasted, and that image with its contrast raised 2.5 times.
      Pixels are not modelled; a rendering is known by how it was made. */
  datatype Variant = Gray | AutoContrast | Contrast25

  /** An image given to the barcode reader: a rendering as it is, or a
      rendering rotated by angle degrees with its frame expanded. */
  datatype Image = Plain(variant: Variant) | Rotated(variant: Variant, angle: int)

  /** The barcode reader on one image: the payloads of the symbols found, in
      the reader's order, or the exception it raised. The UTF-8 decoding of
      the first symbol's payload belongs to the reader: a first payload that
      is not valid UTF-8 is the attempt raising. Later payloads are never
      decoded. */
  type Decoder = Image -> Step<seq<string>>

  /** The uploaded bytes: either opening them or building a rendering
      (grayscale conversion, auto-contrast, contrast 2.5) raised, with the
      exception's message, or they give a picture that the reader sees
      through decode. */
  datatype Upload = Corrupt(message: string) | Picture(decode: Decoder)

  /** The JSON record the endpoint returns; via holds its "method" key. */
  datatype ScanResult = ScanResult(serial: string, via: string, status: string)

  const Variants: seq<Variant> := [Gray, AutoContrast, Contrast25]
  const Angles: seq<int> := [0, -90, 90, 180]
  const MinSerialLength := 4
  const NotFound := ScanResult("Not Found", "Failed", "Failed")

  function ErrorResult(message: string): ScanResult
  {
    ScanResult("Error", message, "Error")
  }

  /** PIL's rotate(angle, expand=True) on a rendering. */
  function RotateExpand(img: Image, angle: int): Image
  {
    Rotated(img.variant, angle)
  }

  /** The image the reader is given for one (rendering, angle) pair: the
      rendering itself at angle 0, a rotated copy otherwise. */
  function Attempt(v: Variant, angle: int): Image
  {
    if angle == 0 then Plain(v) else Rotated(v, angle)
  }

  function RotationsOf(v: Variant): seq<Image>
  {
    seq(|Angles|, j requires 0 <= j < |Angles| => Attempt(v, Angles[j]))
  }

  /** Every (rendering, angle) pair of vs, renderings outermost. */
  function PairsOf(vs: seq<Variant>): seq<Image>
  {
    if vs == [] then [] else RotationsOf(vs[0]) + PairsOf(vs[1..])
  }

  /** The images the nested search gives the reader, in the order it does. */
  function SearchOrder(): seq<Image>
  {
    PairsOf(Variants)
  }

  lemma {:induction false} PairsOfAt(vs: seq<Variant>, i: nat, j: nat)
    requires i < |vs| && j < |Angles|
    ensures |PairsOf(vs)| == |Angles| * |vs|
    ensures PairsOf(vs)[|Angles| * i + j] == Attempt(vs[i], Angles[j])
    decreases |vs|
  {
    if i == 0 {
      PairsOfLength(vs);
    } else {
      PairsOfAt(vs[1..], i - 1, j);
      assert |Angles| * i + j == |Angles| + (|Angles| * (i - 1) + j);
    }
  }

  lemma {:induction false} PairsOfLength(vs: seq<Variant>)
    ensures |PairsOf(vs)| == |Angles| * |vs|
    decreases |vs|
  {
    if vs != [] {
      PairsOfLength(vs[1..]);
    }
  }

  /** The search order is lexicographic in (rendering, angle): the pair of
      rendering i and angle j is attempt number 4 * i + j of 12, and at
      angle 0 the reader gets the rendering itself, unrotated. */
  lemma SearchOrderAt(i: nat, j: nat)
    requires i < |Variants| && j < |Angles|
    ensures |SearchOrder()| == 12
    ensures SearchOrder()[4 * i + j]
            == if Angles[j] == 0 then Plain(Variants[i]) else Rotated(Variants[i], Angles[j])
    ensures j == 0 <==> SearchOrder()[4 * i + j].Plain?
  {
    PairsOfAt(Variants, i, j);
  }

  /** An attempt whose first symbol is long enough to be reported. */
  predicate Qualifies(attempt: Step<seq<string>>)
  {
    attempt.Ok? && |attempt.value| > 0 && |attempt.value[0]| >= MinSerialLength
  }

  /** An attempt that ends the search: it qualifies, or it raised. */
  predicate Ends(attempt: Step<seq<string>>)
  {
    attempt.Raised? || Qualifies(attempt)
  }

  /** How the barcode search ends. */
  datatype Hit = Found(payload: string) | Crashed(message: string) | Exhausted

  /** What an attempt that ends the search makes of it. */
  function Verdict(attempt: Step<seq<string>>): Hit
    requires Ends(attempt)
  {
    if attempt.Raised? then Crashed(attempt.message) else Found(attempt.value[0])
  }

  /** The search over order, looking only at the first symbol of each
      attempt and stopping at the first attempt that ends it. */
  function FirstHit(order: seq<Image>, decode: Decoder): (h: Hit)
    ensures h.Found? ==> |h.payload| >= MinSerialLength
  {
    if order == [] then Exhausted
    else if Ends(decode(order[0])) then Verdict(decode(order[0]))
    else FirstHit(order[1..], decode)
  }

  /** Attempt k ends the search and no earlier attempt does. */
  ghost predicate FirstToEnd(order: seq<Image>, decode: Decoder, k: nat)
  {
    && k < |order|
    && Ends(decode(order[k]))
    && forall j :: 0 <= j < k ==> !Ends(decode(order[j]))
  }

  /** The first attempt in search order that ends the search decides it. */
  lemma {:induction false} FirstToEndDecides(order: seq<Image>, decode: Decoder, k: nat)
    requires FirstToEnd(order, decode, k)
    ensures FirstHit(order, decode) == Verdict(decode(order[k]))
    decreases k
  {
    if k > 0 {
      assert !Ends(decode(order[0]));
      assert FirstToEnd(order[1..], decode, k - 1) by {
        forall j | 0 <= j < k - 1 ensures !Ends(decode(order[1..][j])) {
          assert order[1..][j] == order[j + 1];
        }
      }
      FirstToEndDecides(order[1..], decode, k - 1);
    }
  }

  /** Conversely, a search that does not run out was decided by the first
      attempt that ends it: a payload comes from the first symbol of the
      earliest qualifying pair, an exception from the earliest raising one. */
  lemma {:induction false} FirstHitIsFirstToEnd(order: seq<Image>, decode: Decoder)
    ensures FirstHit(order, decode) != Exhausted ==>
              exists k: nat :: FirstToEnd(order, decode, k) && FirstHit(order, decode) == Verdict(decode(order[k]))
    decreases |order|
  {
    if order != [] {
      if Ends(decode(order[0])) {
        assert FirstToEnd(order, decode, 0);
      } else if FirstHit(order, decode) != Exhausted {
        FirstHitIsFirstToEnd(order[1..], decode);
        var k: nat :| FirstToEnd(order[1..], decode, k) && FirstHit(order[1..], decode) == Verdict(decode(order[1..][k]));
        assert order[1..][k] == order[k + 1];
        forall j | 0 <= j < k + 1 ensures !Ends(decode(order[j])) {
          if j > 0 { assert order[j] == order[1..][j - 1]; }
        }
        assert FirstToEnd(order, decode, k + 1);
      }
    }
  }

  /** The search runs out exactly when no attempt qualifies or raises. */
  lemma {:induction false} ExhaustedIffNothingEnds(order: seq<Image>, decode: Decoder)
    ensures FirstHit(order, decode) == Exhausted
            <==> forall k :: 0 <= k < |order| ==> !Ends(decode(order[k]))
    decreases |order|
  {
    if order != [] {
      ExhaustedIffNothingEnds(order[1..], decode);
      assert forall k :: 1 <= k < |order| ==> order[k] == order[1..][k - 1];
    }
  }

  /** Two readers that agree on whether each attempt raised, on whether it
      found a symbol and on its first symbol. */
  ghost predicate SameFirstSymbols(order: seq<Image>, d1: Decoder, d2: Decoder)
  {
    forall k :: 0 <= k < |order| ==>
      match d1(order[k])
      case Raised(m) => d2(order[k]) == Raised(m)
      case Ok(ps) =>
        d2(order[k]).Ok? && (|ps| > 0 <==> |d2(order[k]).value| > 0)
        && (|ps| > 0 ==> ps[0] == d2(order[k]).value[0])
  }

  /** Only decoded[0] is looked at: what other symbols an attempt finds never
      changes the outcome, so a short first symbol moves the search on even
      when a later symbol of the same attempt is long. */
  lemma {:induction false} OnlyFirstSymbolMatters(order: seq<Image>, d1: Decoder, d2: Decoder)
    requires SameFirstSymbols(order, d1, d2)
    ensures FirstHit(order, d1) == FirstHit(order, d2)
    decreases |order|
  {
    if order != [] {
      assert SameFirstSymbols(order[1..], d1, d2) by {
        forall k | 0 <= k < |order[1..]| ensures order[1..][k] == order[k + 1] { }
      }
      OnlyFirstSymbolMatters(order[1..], d1, d2);
      assert match d1(order[0])
        case Raised(m) => d2(order[0]) == Raised(m)
        case Ok(ps) =>
          d2(order[0]).Ok? && (|ps| > 0 <==> |d2(order[0]).value| > 0)
          && (|ps| > 0 ==> ps[0] == d2(order[0]).value[0]);
    }
  }

  /** The record the endpoint returns for an upload. */
  function ScanOutcome(upload: Upload): (r: ScanResult)
    ensures r.status == "Success" || r.status == "Failed" || r.status == "Error"
    ensures r.status == "Success" ==> |r.serial| >= MinSerialLength && r.via == "Barcode Scan"
    ensures r.status == "Failed" ==> r == NotFound
    ensures r.status == "Error" ==> r.serial == "Error"
  {
    match upload
    case Corrupt(m) => ErrorResult(m)
    case Picture(decode) =>
      match FirstHit(SearchOrder(), decode)
      case Found(p) => ScanResult(p, "Barcode Scan", "Success")
      case Crashed(m) => ErrorResult(m)
      case Exhausted => NotFound
  }

  /** process_image_logic: try each rendering at each angle until the first
      symbol of an attempt has at least four characters. The ghost trace
      lists the images given to the reader, in order. */
  method ProcessImage(upload: Upload) returns (r: ScanResult, ghost tried: seq<Image>)
    ensures r == ScanOutcome(upload)
    ensures tried <= SearchOrder() && |tried| <= 12
    ensures r == NotFound ==> tried == SearchOrder()
    ensures r.status == "Success" ==>
              upload.Picture? && tried != [] && Qualifies(upload.decode(tried[|tried| - 1]))
                && r.serial == upload.decode(tried[|tried| - 1]).value[0]
    ensures upload.Corrupt? ==> tried == []
  {
    tried := [];
    SearchOrderAt(0, 0);
    if upload.Corrupt? {
      return ErrorResult(upload.message), tried;
    }
    var decode := upload.decode;
    var imagesToCheck := [Plain(Gray), Plain(AutoContrast), Plain(Contrast25)];
    var angles := [0, -90, 90, 180];
    for i := 0 to |imagesToCheck|
      invariant tried == SearchOrder()[..4 * i]
      invariant FirstHit(SearchOrder(), decode) == FirstHit(SearchOrder()[4 * i..], decode)
    {
      var imgVer := imagesToCheck[i];
      for j := 0 to |angles|
        invariant tried == SearchOrder()[..4 * i + j]
        invariant FirstHit(SearchOrder(), decode) == FirstHit(SearchOrder()[4 * i + j..], decode)
      {
        var angle := angles[j];
        var rotated := if angle == 0 then imgVer else RotateExpand(imgVer, angle);
        SearchOrderAt(i, j);
        ghost var rest := SearchOrder()[4 * i + j..];
        assert rest[0] == rotated && rest[1..] == SearchOrder()[4 * i + j + 1..];
        tried := tried + [rotated];
        assert tried == SearchOrder()[..4 * i + j + 1];
        var decoded := decode(rotated);
        if decoded.Raised? {
          return ErrorResult(decoded.message), tried;
        }
        if |decoded.value| > 0 {
          var val := decoded.value[0];
          if |val| >= 4 {
            return ScanResult(val, "Barcode Scan", "Success"), tried;
          }
        }
      }
    }
    return NotFound, tried;
  }

  /** Whatever the picture's orientation, a barcode that some rendering at
      some angle reads with a long enough first symbol is reported, provided
      no attempt raises. */
  lemma SomeQualifyingPairSucceeds(decode: Decoder, i: nat, j: nat)
    requires i < |Variants| && j < |Angles|
    requires Qualifies(decode(Attempt(Variants[i], Angles[j])))
    requires forall k :: 0 <= k < |SearchOrder()| ==> decode(SearchOrder()[k]).Ok?
    ensures ScanOutcome(Picture(decode)).status == "Success"
  {
    PairsOfAt(Variants, i, j);
    assert Ends(decode(SearchOrder()[4 * i + j]));
    ExhaustedIffNothingEnds(SearchOrder(), decode);
    FirstHitIsFirstToEnd(SearchOrder(), decode);
  }

  /** A reader that always finds a short symbol first, here "AB" before a
      long meter serial, never gets past the filter. */
  lemma ShortFirstSymbolMasksLongOne()
    ensures ScanOutcome(Picture(img => Ok(["AB", "6812345678"]))) == NotFound
  {
    ExhaustedIffNothingEnds(SearchOrder(), img => Ok(["AB", "6812345678"]));
  }
}
