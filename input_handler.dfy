/**
 * The subprocess front-end (`pythonInputHandler/colAruco.py`): the same
 * cascade as the OpenCV front-end without the `test` keyword, whose `code`
 * branch passes the id and the dictionary's type number to the translator.
 * `fetch` stands for `fetch_aruco`, the translator run as a subprocess.
 */
module InputHandler {
  import opened Text
  import opened HostParsing
  import Translator

  /** The translator's type numbers, as the strings passed on its command line. */
  const ARUCO_DICT: map<string, string> :=
    map["dict4" := "4", "dict5" := "5", "dict6" := "6", "dict_or" := "0"]

  const KEYWORDS: seq<string> := ["save", "load", "br", "cl", "code"]

  function CodeBranch(tokens: seq<string>, fetch: (string, string) -> string): Outcome
    requires "code" in tokens
  {
    match ParseCode(tokens)
    case CodeInvalid => REJECTED
    case CodeRaises => RaisedValueError
    case CodeAccepted(id, name) => Returned(false, "code", fetch(NatToString(id), ARUCO_DICT[name]))
  }

  function InputParser(tokens: seq<string>, fetch: (string, string) -> string): Outcome
  {
    if "save" in tokens then Returned(false, "save", "")
    else if "load" in tokens then Returned(false, "load", "")
    else if "br" in tokens then BrBranch(tokens)
    else if "cl" in tokens then ClBranch(tokens)
    else if "code" in tokens then CodeBranch(tokens, fetch)
    else NOTHING
  }

  /** The first keyword of save > load > br > cl > code that occurs decides the result. */
  lemma KeywordPriority(tokens: seq<string>, fetch: (string, string) -> string)
    ensures var o := InputParser(tokens, fetch);
      match FirstKeyword(KEYWORDS, tokens)
      case None => o == NOTHING
      case Some(k) =>
        (o.Returned? && o.flag != "" ==> o.flag == KEYWORDS[k])
        && (k <= 1 ==> o == Returned(false, KEYWORDS[k], ""))
        && (k == 2 ==> o == BrBranch(tokens))
        && (k == 3 ==> o == ClBranch(tokens))
        && (k == 4 ==> o == CodeBranch(tokens, fetch))
  {
    var first := FirstKeyword(KEYWORDS, tokens);
    assert KEYWORDS[0] == "save" && KEYWORDS[1] == "load";
    assert KEYWORDS[2] == "br" && KEYWORDS[3] == "cl" && KEYWORDS[4] == "code";
    if first.Some? {
      var k := first.value;
      if k == 2 {
        BrSpec(tokens);
      } else if k == 3 {
        ClSpec(tokens);
      } else if k == 4 {
        assert "save" !in tokens && "load" !in tokens;
        assert "br" !in tokens && "cl" !in tokens;
      }
    } else {
      assert forall j :: 0 <= j < 5 ==> KEYWORDS[j] !in tokens;
    }
  }

  /** This revision has no `test` keyword: a lone `test` carries no meaning. */
  lemma TestMeansNothing(fetch: (string, string) -> string)
    ensures InputParser(["test"], fetch) == NOTHING
    ensures MainAction(InputParser(["test"], fetch)) == NoMeaning
  {
    var tokens := ["test"];
    assert "save" !in tokens && "load" !in tokens && "br" !in tokens && "cl" !in tokens && "code" !in tokens;
  }

  /** A non-empty flag comes without error, an error without flag; so `main` sends only error-free results. */
  lemma ParserConsistent(tokens: seq<string>, fetch: (string, string) -> string)
    ensures Consistent(InputParser(tokens, fetch))
    ensures MainAction(InputParser(tokens, fetch)).Send? ==> !InputParser(tokens, fetch).error
  {
    if "save" !in tokens && "load" !in tokens {
      if "br" in tokens {
        BrSpec(tokens);
      } else if "cl" in tokens {
        ClSpec(tokens);
      }
    }
  }

  /**
   * An accepted `code` has an id in [0, 1000) and hands the translator a
   * type number `atoi` reads as one of the types its switch handles.
   */
  lemma AcceptedCodeHasHandledType(tokens: seq<string>, fetch: (string, string) -> string)
    requires "code" in tokens && ParseCode(tokens).CodeAccepted?
    ensures ParseCode(tokens).id < 1000
    ensures var t := ARUCO_DICT[ParseCode(tokens).dictName];
      IsDecimalInt(t) && Translator.SizeOfType(DecimalIntValue(t)).Some?
    ensures CodeBranch(tokens, fetch)
      == Returned(false, "code", fetch(NatToString(ParseCode(tokens).id), ARUCO_DICT[ParseCode(tokens).dictName]))
  {
    ParseCodeSpec(tokens);
    var name := ParseCode(tokens).dictName;
    var t := ARUCO_DICT[name];
    assert |t| == 1 && IsDigit(t[0]);
    assert t[SignLength(t)..] == t;
    assert t[..0] == [];
    assert DecimalIntValue(t) == DigitValue(t[0]);
  }
}
