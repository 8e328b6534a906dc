/**
 * The OpenCV front-end (`colAruco/colAruco.py`): `input_parser` with the
 * keywords save, load, test, br, cl and code, and `fetch_aruco`, which packs
 * the 6 x 6 image `cv2.aruco.drawMarker(dictionary, 0, 6)` returns into six
 * row masks. The image is an input: `draw` stands for `drawMarker`.
 */
module ColAruco {
  import opened Bits
  import opened Text
  import opened HostParsing
  import LedMatrix

  /** The OpenCV dictionaries `ARUCO_DICT` names. */
  datatype CvDictionary = Dict4x4_1000 | Dict5x5_1000 | Dict6x6_1000 | ArucoOriginal

  const ARUCO_DICT: map<string, CvDictionary> :=
    map["dict4" := Dict4x4_1000, "dict5" := Dict5x5_1000, "dict6" := Dict6x6_1000, "dict_or" := ArucoOriginal]

  /** `marker_bits` has six entries, so the image may have at most six rows. */
  type MarkerImage = m: seq<seq<int>> | |m| <= 6

  const KEYWORDS: seq<string> := ["save", "load", "test", "br", "cl", "code"]

  /** A row's cells as bits: a pixel is set when it is non-zero. */
  function CellBits(row: seq<int>): (bs: seq<bit>)
    ensures |bs| == |row|
  {
    seq<bit>(|row|, j requires 0 <= j < |row| => if row[j] != 0 then 1 else 0)
  }

  /** The six entries of `marker_bits`: row i weighs cell j by 2^(len(row)-1-j); rows the image lacks stay 0. */
  function MarkerBits(marker: MarkerImage): (bits: seq<nat>)
    ensures |bits| == 6
  {
    seq(6, i requires 0 <= i < 6 => if i < |marker| then Pack(CellBits(marker[i])) else 0)
  }

  function FetchText(marker: MarkerImage): string
  {
    "code " + NatToString(6) + " " + Join(seq(6, i requires 0 <= i < 6 => NatToString(MarkerBits(marker)[i])), " ")
  }

  /** `fetch_aruco`: the marker id is not used; the image is always that of marker 0. */
  method FetchAruco(id: int, dictionary: CvDictionary, draw: CvDictionary -> MarkerImage) returns (out: string)
    ensures out == FetchText(draw(dictionary))
  {
    var marker := draw(dictionary);
    var markerBits := new nat[6](_ => 0);
    var i := 0;
    while i < |marker|
      modifies markerBits
      invariant 0 <= i <= |marker|
      invariant forall r :: 0 <= r < 6 ==> markerBits[r] == if r < i then MarkerBits(marker)[r] else 0
    {
      var row := marker[i];
      ghost var cells := CellBits(row);
      var j := 0;
      while j < |row|
        modifies markerBits
        invariant 0 <= j <= |row|
        invariant markerBits[i] == Pack(cells[..j]) * Pow2(|row| - j)
        invariant forall r :: 0 <= r < 6 && r != i ==> markerBits[r] == if r < i then MarkerBits(marker)[r] else 0
      {
        PackStep(cells, j, |row|);
        if row[j] != 0 {
          markerBits[i] := markerBits[i] + Pow2(|row| - j - 1);
        }
        j := j + 1;
      }
      assert cells[..|row|] == cells;
      i := i + 1;
    }
    var bits := markerBits[..];
    assert bits == MarkerBits(marker);
    out := "code " + NatToString(markerBits.Length) + " "
      + Join(seq(6, k requires 0 <= k < 6 => NatToString(bits[k])), " ");
  }

  function CodeBranch(tokens: seq<string>, draw: CvDictionary -> MarkerImage): Outcome
    requires "code" in tokens
  {
    match ParseCode(tokens)
    case CodeInvalid => REJECTED
    case CodeRaises => RaisedValueError
    case CodeAccepted(_, name) => Returned(false, "code", FetchText(draw(ARUCO_DICT[name])))
  }

  function InputParser(tokens: seq<string>, draw: CvDictionary -> MarkerImage): Outcome
  {
    if "save" in tokens then Returned(false, "save", "")
    else if "load" in tokens then Returned(false, "load", "")
    else if "test" in tokens then Returned(false, "test", "")
    else if "br" in tokens then BrBranch(tokens)
    else if "cl" in tokens then ClBranch(tokens)
    else if "code" in tokens then CodeBranch(tokens, draw)
    else NOTHING
  }

  /**
   * The first keyword of save > load > test > br > cl > code that occurs
   * decides the result; save, load and test always succeed without an
   * argument, and a token list with none of them means nothing.
   */
  lemma KeywordPriority(tokens: seq<string>, draw: CvDictionary -> MarkerImage)
    ensures var o := InputParser(tokens, draw);
      match FirstKeyword(KEYWORDS, tokens)
      case None => o == NOTHING
      case Some(k) =>
        (o.Returned? && o.flag != "" ==> o.flag == KEYWORDS[k])
        && (k <= 2 ==> o == Returned(false, KEYWORDS[k], ""))
        && (k == 3 ==> o == BrBranch(tokens))
        && (k == 4 ==> o == ClBranch(tokens))
        && (k == 5 ==> o == CodeBranch(tokens, draw))
  {
    var first := FirstKeyword(KEYWORDS, tokens);
    assert KEYWORDS[0] == "save" && KEYWORDS[1] == "load" && KEYWORDS[2] == "test";
    assert KEYWORDS[3] == "br" && KEYWORDS[4] == "cl" && KEYWORDS[5] == "code";
    if first.Some? {
      var k := first.value;
      if k == 3 {
        BrSpec(tokens);
      } else if k == 4 {
        ClSpec(tokens);
      } else if k == 5 {
        assert "save" !in tokens && "load" !in tokens && "test" !in tokens;
        assert "br" !in tokens && "cl" !in tokens;
      }
    } else {
      assert forall j :: 0 <= j < 6 ==> KEYWORDS[j] !in tokens;
    }
  }

  /** A non-empty flag comes without error, an error without flag. */
  lemma ParserConsistent(tokens: seq<string>, draw: CvDictionary -> MarkerImage)
    ensures Consistent(InputParser(tokens, draw))
    ensures InputParser(tokens, draw).Returned? ==>
      InputParser(tokens, draw).flag in {"", "save", "load", "test", "br", "cl", "code"}
  {
    if "save" !in tokens && "load" !in tokens && "test" !in tokens {
      if "br" in tokens {
        BrSpec(tokens);
      } else if "cl" in tokens {
        ClSpec(tokens);
      }
    }
  }

  /** `code` raises ValueError exactly when the token after it exists and is not an integer. */
  lemma CodeRaisesOnlyOnBadId(tokens: seq<string>, draw: CvDictionary -> MarkerImage)
    requires "code" in tokens
    ensures CodeBranch(tokens, draw) == RaisedValueError <==>
      Argument(tokens, "code", 1).Some? && !IsDecimalInt(Argument(tokens, "code", 1).value)
    ensures CodeBranch(tokens, draw).Returned? && CodeBranch(tokens, draw).flag == "code" ==>
      CodeBranch(tokens, draw).formatted == FetchText(draw(ARUCO_DICT[Argument(tokens, "code", 2).value]))
  {
    ParseCodeSpec(tokens);
  }

  /** Bit len(row)-1-j of the packed row is cell j: the leftmost cell is the most significant bit. */
  lemma MarkerBitsMsbFirst(marker: MarkerImage, r: nat, j: nat)
    requires r < |marker| && j < |marker[r]|
    ensures BitAt(MarkerBits(marker)[r], |marker[r]| - 1 - j) == if marker[r][j] != 0 then 1 else 0
  {
    PackBit(CellBits(marker[r]), |marker[r]| - 1 - j);
  }

  /**
   * The six rows of a 6 x 6 image, once the device draws them with size 6,
   * light exactly the cells that are set in the image, at the same place
   * counted from the left edge of every line.
   */
  lemma FetchedMarkerRendered(marker: MarkerImage, code: seq<uint8>, prev: seq<uint32>, color: uint32, r: nat, v: nat)
    requires |marker| == 6 && forall i :: 0 <= i < 6 ==> |marker[i]| == 6
    requires |code| >= 6 && forall i :: 0 <= i < 6 ==> code[i] == MarkerBits(marker)[i]
    requires |prev| == LedMatrix.LED_COUNT && r < 6 && v < 6
    ensures LedMatrix.Rendered(prev, code, 6, color)[LedMatrix.VisualIndex(r, v)]
            == if marker[r][v] != 0 then color else LedMatrix.OffCol(color)
  {
    LedMatrix.LeftAligned(prev, code, 6, color, r, v);
    MarkerBitsMsbFirst(marker, r, v);
  }

  /** Every packed row of a 6 x 6 image fits in the byte the device stores it in. */
  lemma MarkerBitsFitByte(marker: MarkerImage, r: nat)
    requires r < 6 && (r < |marker| ==> |marker[r]| <= 8)
    ensures MarkerBits(marker)[r] < 0x100
  {
    if r < |marker| {
      PackByte(CellBits(marker[r]));
    }
  }
}
