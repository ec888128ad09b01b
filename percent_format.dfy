/** Python's `template % mapping` restricted to what tab headings use: every
    `%(key)s` is replaced by the mapping's value for `key`. */
module PercentFormat {
  import opened Common

  datatype FormatError =
    | IncompleteFormat                   // a `%` or `%(key)` that ends the template
    | IncompleteKey                      // `%(` without a closing `)`
    | UnsupportedConversion(c: char)     // anything but `s` after `%(key)`, or `%` not followed by `(`
    | MissingKey(key: string)            // the KeyError of a key absent from the mapping

  /** `t % args`, scanning left to right as CPython does: the key is looked up as soon
      as it has been read, before its conversion character. */
  function Format(t: string, args: map<string, string>): Result<string, FormatError>
    decreases |t|
  {
    if t == [] then Ok([])
    else if t[0] != '%' then
      match Format(t[1..], args)
      case Ok(r) => Ok([t[0]] + r)
      case Err(e) => Err(e)
    else if |t| == 1 then Err(IncompleteFormat)
    else if t[1] != '(' then Err(UnsupportedConversion(t[1]))
    else
      match IndexOf(t, ')', 2)
      case None => Err(IncompleteKey)
      case Some(close) =>
        var key := t[2..close];
        if key !in args then Err(MissingKey(key))
        else if close + 1 == |t| then Err(IncompleteFormat)
        else if t[close + 1] != 's' then Err(UnsupportedConversion(t[close + 1]))
        else
          match Format(t[close + 2..], args)
          case Ok(r) => Ok(args[key] + r)
          case Err(e) => Err(e)
  }

  /** A template seen as literal text and `%(key)s` slots. */
  datatype Piece = Text(text: string) | Slot(key: string)

  predicate WellFormedPiece(p: Piece)
  {
    match p
    case Text(text) => '%' !in text
    case Slot(key) => ')' !in key
  }

  function PrintPiece(p: Piece): string
  {
    match p
    case Text(text) => text
    case Slot(key) => "%(" + key + ")s"
  }

  /** The template text of a sequence of pieces. */
  function Print(ps: seq<Piece>): string
  {
    if ps == [] then "" else PrintPiece(ps[0]) + Print(ps[1..])
  }

  predicate KeysPresent(ps: seq<Piece>, args: map<string, string>)
  {
    forall i :: 0 <= i < |ps| && ps[i].Slot? ==> ps[i].key in args
  }

  /** What the pieces mean: text kept, each slot replaced by its value. */
  function Render(ps: seq<Piece>, args: map<string, string>): string
    requires KeysPresent(ps, args)
  {
    if ps == [] then ""
    else
      (match ps[0] case Text(text) => text case Slot(key) => args[key]) + Render(ps[1..], args)
  }

  /** Literal text without `%` passes through unchanged in front of whatever follows. */
  lemma {:induction false} FormatText(s: string, rest: string, args: map<string, string>)
    requires '%' !in s
    ensures Format(s + rest, args) ==
              match Format(rest, args)
              case Ok(r) => Ok(s + r)
              case Err(e) => Err(e)
    decreases |s|
  {
    if s != [] {
      assert (s + rest)[1..] == s[1..] + rest;
      FormatText(s[1..], rest, args);
      assert (s + rest)[0] == s[0] && s[0] != '%';
      match Format(rest, args)
      case Ok(r) => assert [s[0]] + (s[1..] + r) == s + r;
      case Err(_) =>
    } else {
      assert s + rest == rest;
      match Format(rest, args)
      case Ok(r) => assert s + r == r;
      case Err(_) =>
    }
  }

  /** A template with no `%` at all formats to itself. */
  lemma FormatPlain(s: string, args: map<string, string>)
    requires '%' !in s
    ensures Format(s, args) == Ok(s)
  {
    FormatText(s, "", args);
    assert s + "" == s;
  }

  /** A `%(key)s` slot at the front is replaced by the key's value. */
  lemma FormatSlot(key: string, rest: string, args: map<string, string>)
    requires ')' !in key && key in args
    ensures Format("%(" + key + ")s" + rest, args) ==
              match Format(rest, args)
              case Ok(r) => Ok(args[key] + r)
              case Err(e) => Err(e)
  {
    var t := "%(" + key + ")s" + rest;
    var close := |key| + 2;
    assert t[close] == ')';
    forall k | 2 <= k < close ensures t[k] != ')' {
      assert t[k] == key[k - 2];
    }
    assert IndexOf(t, ')', 2) == Some(close) by {
      IndexOfFinds(t, ')', 2, close);
    }
    assert t[2..close] == key;
    assert t[close + 1] == 's';
    assert t[close + 2..] == rest;
  }

  /** Formatting the printed form of well-formed pieces yields their rendering:
      the parser and the printer agree. */
  lemma {:induction false} FormatPrinted(ps: seq<Piece>, args: map<string, string>)
    requires forall i :: 0 <= i < |ps| ==> WellFormedPiece(ps[i])
    requires KeysPresent(ps, args)
    ensures Format(Print(ps), args) == Ok(Render(ps, args))
  {
    if ps == [] {
    } else {
      FormatPrinted(ps[1..], args);
      match ps[0]
      case Text(text) =>
        FormatText(text, Print(ps[1..]), args);
      case Slot(key) =>
        FormatSlot(key, Print(ps[1..]), args);
    }
  }

  /** A slot whose key the mapping lacks is the first error reported when it is the
      first slot: the KeyError of the source. */
  lemma {:induction false} FormatFirstMissing(text: string, key: string, rest: string, args: map<string, string>)
    requires '%' !in text && ')' !in key && key !in args
    ensures Format(text + "%(" + key + ")s" + rest, args) == Err(MissingKey(key))
  {
    var t := "%(" + key + ")s" + rest;
    assert text + "%(" + key + ")s" + rest == text + t;
    FormatText(text, t, args);
    var close := |key| + 2;
    forall k | 2 <= k < close ensures t[k] != ')' {
      assert t[k] == key[k - 2];
    }
    IndexOfFinds(t, ')', 2, close);
    assert t[2..close] == key;
  }

  /** The default status heading and the heading of the example edit handlers, as pieces. */
  const LocaleStatusPieces: seq<Piece> := [Slot("locale"), Text(" "), Slot("status")]
  const CodeLocaleStatusPieces: seq<Piece> := [Slot("code"), Text(": "), Slot("locale"), Text(" "), Slot("status")]

  /** Printing a sequence of pieces prints its first piece, then the rest. */
  lemma PrintCons(p: Piece, rest: seq<Piece>)
    ensures Print([p] + rest) == PrintPiece(p) + Print(rest)
  {
    assert ([p] + rest)[1..] == rest;
  }

  lemma PrintedLocaleStatus()
    ensures Print(LocaleStatusPieces) == "%(locale)s %(status)s"
  {
    PrintCons(Slot("status"), []);
    PrintCons(Text(" "), [Slot("status")]);
    PrintCons(Slot("locale"), [Text(" "), Slot("status")]);
  }

  lemma PrintedColonLocaleStatus()
    ensures Print([Text(": ")] + LocaleStatusPieces) == ": %(locale)s %(status)s"
  {
    PrintedLocaleStatus();
    PrintCons(Text(": "), LocaleStatusPieces);
  }

  lemma PrintedCodeLocaleStatus()
    ensures Print(CodeLocaleStatusPieces) == "%(code)s: %(locale)s %(status)s"
  {
    var tail := [Text(": ")] + LocaleStatusPieces;
    assert CodeLocaleStatusPieces == [Slot("code")] + tail;
    PrintedColonLocaleStatus();
    PrintCons(Slot("code"), tail);
    CodeSlotText();
  }

  lemma CodeSlotText()
    ensures PrintPiece(Slot("code")) + ": %(locale)s %(status)s" == "%(code)s: %(locale)s %(status)s"
  {
    assert PrintPiece(Slot("code")) == "%(code)s";
  }
}
