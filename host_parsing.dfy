/**
 * The pieces of `input_parser` and `main` that both host front-ends share
 * word for word: the `br` and `cl` branches, the argument checks of `code`,
 * and the rule that decides what `main` does with the parser's tuple.
 *
 * Python's `int(t)` is modelled by `Text.IsDecimalInt` and `int(t, 16)` by
 * `Text.IsHexLiteral`; a token outside those grammars raises ValueError.
 */
module HostParsing {
  import opened Text

  /** The tuple `(error, input_flag, formated_input)`, or a ValueError that escapes `input_parser`. */
  datatype Outcome = Returned(error: bool, flag: string, formatted: string) | RaisedValueError

  /** Neither keyword nor error: "Input carries no meaning". */
  const NOTHING: Outcome := Returned(false, "", "")
  /** A keyword whose argument was missing or out of range; the error has been printed. */
  const REJECTED: Outcome := Returned(true, "", "")

  const PREDEFINED_COLORS: map<string, string> :=
    map["r" := "FF0000", "g" := "00FF00", "b" := "0000FF", "w" := "FFFFFF"]

  /** The keys of `ARUCO_DICT` in both front-ends. */
  const DICT_NAMES: set<string> := {"dict4", "dict5", "dict6", "dict_or"}

  /** Python's `tokens.index(t)`: the first position of t. */
  function IndexOf(tokens: seq<string>, t: string): (i: nat)
    requires t in tokens
    ensures i < |tokens| && tokens[i] == t
    ensures forall j :: 0 <= j < i ==> tokens[j] != t
  {
    if tokens[0] == t then 0 else 1 + IndexOf(tokens[1..], t)
  }

  /** The token after the first occurrence of `keyword`, if any (an IndexError otherwise). */
  function Argument(tokens: seq<string>, keyword: string, k: nat): Option<string>
    requires keyword in tokens && k >= 1
  {
    var i := IndexOf(tokens, keyword);
    if i + k < |tokens| then Some(tokens[i + k]) else None
  }

  /** The `br` branch: an integer in [0, 255], sent back in canonical decimal. */
  function BrBranch(tokens: seq<string>): Outcome
    requires "br" in tokens
  {
    match Argument(tokens, "br", 1)
    case None => REJECTED
    case Some(t) =>
      if !IsDecimalInt(t) then REJECTED
      else
        var v := DecimalIntValue(t);
        if 0 <= v < 256 then Returned(false, "br", NatToString(v) + " ") else REJECTED
  }

  /** The `cl` branch: a predefined colour name, or any token `int(_, 16)` accepts, echoed. */
  function ClBranch(tokens: seq<string>): Outcome
    requires "cl" in tokens
  {
    match Argument(tokens, "cl", 1)
    case None => REJECTED
    case Some(t) =>
      if t in PREDEFINED_COLORS then Returned(false, "cl", PREDEFINED_COLORS[t] + " ")
      else if IsHexLiteral(t) then Returned(false, "cl", t + " ")
      else REJECTED
  }

  /** How the `code` branch treats its two arguments, before anything is fetched. */
  datatype CodeRequest = CodeInvalid | CodeRaises | CodeAccepted(id: nat, dictName: string)

  /**
   * `int(tokens[i+1])` is evaluated before `tokens[i+2]` is read, and only
   * IndexError is caught: a non-integer id escapes as ValueError even when
   * the dictionary name is missing.
   */
  function ParseCode(tokens: seq<string>): CodeRequest
    requires "code" in tokens
  {
    match Argument(tokens, "code", 1)
    case None => CodeInvalid
    case Some(idText) =>
      if !IsDecimalInt(idText) then CodeRaises
      else
        match Argument(tokens, "code", 2)
        case None => CodeInvalid
        case Some(dictName) =>
          var id := DecimalIntValue(idText);
          if 0 <= id < 1000 && dictName in DICT_NAMES then CodeAccepted(id, dictName) else CodeInvalid
  }

  /** What `main` does with the parser's result. */
  datatype Action = Send(message: string) | ReportError | NoMeaning | Crash

  function MainAction(o: Outcome): Action
  {
    match o
    case RaisedValueError => Crash
    case Returned(error, flag, formatted) =>
      if |flag| > 0 then Send(flag + " " + formatted)
      else if error then ReportError
      else NoMeaning
  }

  /**
   * The position in `keywords` of the first keyword that occurs among the
   * tokens: an order-of-priority reading of an if/elif cascade of `in` tests.
   */
  function FirstKeyword(keywords: seq<string>, tokens: seq<string>): (k: Option<nat>)
    ensures k.Some? ==>
      k.value < |keywords| && keywords[k.value] in tokens && forall j :: 0 <= j < k.value ==> keywords[j] !in tokens
    ensures k.None? <==> forall j :: 0 <= j < |keywords| ==> keywords[j] !in tokens
  {
    if |keywords| == 0 then None
    else if keywords[0] in tokens then Some(0)
    else match FirstKeyword(keywords[1..], tokens)
      case None => None
      case Some(i) => Some(i + 1)
  }

  /** Every tuple returned carries a flag only without error, and an error only without flag. */
  predicate Consistent(o: Outcome)
  {
    o.Returned? ==> (o.flag != "" ==> !o.error) && (o.error ==> o.flag == "")
  }

  /**
   * `br` never raises; it succeeds exactly when the argument is an integer in
   * [0, 255], and then the device receives that value in canonical decimal,
   * which `int` reads back as the same value.
   */
  lemma BrSpec(tokens: seq<string>)
    requires "br" in tokens
    ensures BrBranch(tokens).Returned? && Consistent(BrBranch(tokens))
    ensures BrBranch(tokens).flag in {"", "br"}
    ensures BrBranch(tokens).flag == "br" <==>
      Argument(tokens, "br", 1).Some? && IsDecimalInt(Argument(tokens, "br", 1).value)
      && 0 <= DecimalIntValue(Argument(tokens, "br", 1).value) < 256
    ensures BrBranch(tokens).flag == "br" ==>
      var f := BrBranch(tokens).formatted;
      |f| > 0 && f[|f| - 1] == ' ' && IsDecimalInt(f[..|f| - 1])
      && DecimalIntValue(f[..|f| - 1]) == DecimalIntValue(Argument(tokens, "br", 1).value)
  {
    var o := BrBranch(tokens);
    if o.flag == "br" {
      var v: nat := DecimalIntValue(Argument(tokens, "br", 1).value);
      NatToStringIsDecimalInt(v);
      assert o.formatted[..|o.formatted| - 1] == NatToString(v);
    }
  }

  /** The predefined colours map to hexadecimal literals. */
  lemma PredefinedAreHex(t: string)
    requires t in PREDEFINED_COLORS
    ensures IsHexLiteral(PREDEFINED_COLORS[t]) && |PREDEFINED_COLORS[t]| == 6
  {
    var h := PREDEFINED_COLORS[t];
    assert SignLength(h) == 0;
    assert h[SignLength(h)..] == h;
  }

  /**
   * `cl` never raises; it succeeds exactly when the argument is a predefined
   * colour name or a hexadecimal literal. A name is sent as its colour, any
   * other accepted token unchanged, and what is sent is always a hexadecimal
   * literal followed by a space.
   */
  lemma ClSpec(tokens: seq<string>)
    requires "cl" in tokens
    ensures ClBranch(tokens).Returned? && Consistent(ClBranch(tokens))
    ensures ClBranch(tokens).flag in {"", "cl"}
    ensures ClBranch(tokens).flag == "cl" <==>
      Argument(tokens, "cl", 1).Some?
      && (Argument(tokens, "cl", 1).value in PREDEFINED_COLORS || IsHexLiteral(Argument(tokens, "cl", 1).value))
    ensures ClBranch(tokens).flag == "cl" ==>
      ClBranch(tokens).formatted ==
        (if Argument(tokens, "cl", 1).value in PREDEFINED_COLORS
         then PREDEFINED_COLORS[Argument(tokens, "cl", 1).value]
         else Argument(tokens, "cl", 1).value) + " "
    ensures ClBranch(tokens).flag == "cl" ==>
      var f := ClBranch(tokens).formatted;
      |f| > 0 && f[|f| - 1] == ' ' && IsHexLiteral(f[..|f| - 1])
  {
    var o := ClBranch(tokens);
    if o.flag == "cl" {
      var t := Argument(tokens, "cl", 1).value;
      if t in PREDEFINED_COLORS {
        PredefinedAreHex(t);
        assert o.formatted[..|o.formatted| - 1] == PREDEFINED_COLORS[t];
      } else {
        assert o.formatted[..|o.formatted| - 1] == t;
      }
    }
  }

  /**
   * `code` accepts exactly an integer id in [0, 1000) followed by one of the
   * dictionary names, and raises exactly when the token after `code` exists
   * and is not an integer.
   */
  lemma ParseCodeSpec(tokens: seq<string>)
    requires "code" in tokens
    ensures ParseCode(tokens).CodeAccepted? ==>
      ParseCode(tokens).id < 1000 && ParseCode(tokens).dictName in DICT_NAMES
      && ParseCode(tokens).id == DecimalIntValue(Argument(tokens, "code", 1).value)
      && Some(ParseCode(tokens).dictName) == Argument(tokens, "code", 2)
    ensures ParseCode(tokens).CodeAccepted? <==>
      Argument(tokens, "code", 1).Some? && IsDecimalInt(Argument(tokens, "code", 1).value)
      && 0 <= DecimalIntValue(Argument(tokens, "code", 1).value) < 1000
      && Argument(tokens, "code", 2).Some? && Argument(tokens, "code", 2).value in DICT_NAMES
    ensures ParseCode(tokens).CodeRaises? <==>
      Argument(tokens, "code", 1).Some? && !IsDecimalInt(Argument(tokens, "code", 1).value)
  {
  }

  /** `main` writes to the device exactly when the flag is non-empty, and the message starts with the flag. */
  lemma MainSendsOnlyFlags(o: Outcome)
    ensures MainAction(o).Send? <==> o.Returned? && o.flag != ""
    ensures MainAction(o).Send? ==> MainAction(o).message == o.flag + " " + o.formatted
    ensures MainAction(o) == Crash <==> o == RaisedValueError
    ensures Consistent(o) && o.Returned? && o.error ==> MainAction(o) == ReportError
  {
  }
}
