/**
 * The notes organizer's one-line-per-note file format: the escaping of
 * fields (`encode_field` / `decode_field`) and the building and parsing of
 * a note line (`build_note_line` / `parse_note_line`).
 *
 * A note line is six escaped fields joined by "||" and ended by a newline:
 * title, category, tags, content, attachments (joined by ";;") and date.
 */
module NotesFormat {
  import opened Wrappers
  import opened Text

  const FieldSep := "||"
  const AttSep := ";;"
  const NlToken := "<NL>"
  const PipeToken := "<PIPE>"
  const SemiToken := "<SEMI>"

  // ---------------------------------------------------------------------------
  // Escaping a field
  // ---------------------------------------------------------------------------

  /** `encode_field`: three `str.replace` passes, "||" first, then ";;", then the newline. */
  function EncodeText(s: string): string {
    Replace(Replace(Replace(s, FieldSep, PipeToken), AttSep, SemiToken), "\n", NlToken)
  }

  /** `decode_field`: the three tokens back, "<PIPE>" first, then "<SEMI>", then "<NL>". */
  function DecodeText(s: string): string {
    Replace(Replace(Replace(s, PipeToken, FieldSep), SemiToken, AttSep), NlToken, "\n")
  }

  /** `encode_field(None)` is the empty text. */
  function EncodeField(s: Option<string>): (r: string)
    ensures s.Some? ==> r == EncodeText(s.value)
  {
    match s
    case None => ""
    case Some(t) => EncodeText(t)
  }

  /** `decode_field(None)` is the empty text. */
  function DecodeField(s: Option<string>): (r: string)
    ensures s.Some? ==> r == DecodeText(s.value)
  {
    match s
    case None => ""
    case Some(t) => DecodeText(t)
  }

  /** A missing field encodes and decodes to the empty text. */
  lemma MissingFieldIsEmpty()
    ensures EncodeField(None) == "" && DecodeField(None) == ""
    ensures EncodeField(Some("")) == "" && DecodeField(Some("")) == ""
  {
  }

  /**
   * The escaping as one left-to-right pass: each "||" becomes "<PIPE>",
   * each ";;" that is left "<SEMI>", each newline "<NL>".
   */
  function Escape(s: string): string
    decreases |s|
  {
    if |s| == 0 then ""
    else if FieldSep <= s then PipeToken + Escape(s[2..])
    else if AttSep <= s then SemiToken + Escape(s[2..])
    else if s[0] == '\n' then NlToken + Escape(s[1..])
    else [s[0]] + Escape(s[1..])
  }

  /** The unescaping as one left-to-right pass. */
  function Unescape(t: string): string
    decreases |t|
  {
    if |t| == 0 then ""
    else if PipeToken <= t then FieldSep + Unescape(t[6..])
    else if SemiToken <= t then AttSep + Unescape(t[6..])
    else if NlToken <= t then "\n" + Unescape(t[4..])
    else [t[0]] + Unescape(t[1..])
  }

  /** The three replace passes of `encode_field` are the single pass `Escape`. */
  lemma {:induction false} EncodeIsEscape(s: string)
    ensures EncodeText(s) == Escape(s)
    decreases |s|
  {
    if |s| == 0 {
    } else if FieldSep <= s {
      EncodePipeStep(s);
      EncodeIsEscape(s[2..]);
    } else if AttSep <= s {
      EncodeSemiStep(s);
      EncodeIsEscape(s[2..]);
    } else if s[0] == '\n' {
      EncodeNlStep(s);
      EncodeIsEscape(s[1..]);
    } else {
      EncodeOtherStep(s);
      EncodeIsEscape(s[1..]);
    }
  }

  /** A leading "||" is encoded as "<PIPE>". */
  lemma EncodePipeStep(s: string)
    requires FieldSep <= s
    ensures EncodeText(s) == PipeToken + EncodeText(s[2..])
  {
    var y := s[2..];
    assert s == FieldSep + y;
    ReplaceMatch(y, FieldSep, PipeToken);
    var z := Replace(y, FieldSep, PipeToken);
    ReplaceSkips(PipeToken, z, AttSep, SemiToken);
    var w := Replace(z, AttSep, SemiToken);
    ReplaceSkips(PipeToken, w, "\n", NlToken);
  }

  /** A leading ";;" that does not start "||" is encoded as "<SEMI>". */
  lemma EncodeSemiStep(s: string)
    requires !(FieldSep <= s) && AttSep <= s
    ensures EncodeText(s) == SemiToken + EncodeText(s[2..])
  {
    var y := s[2..];
    assert s == AttSep + y;
    ReplaceSkips(AttSep, y, FieldSep, PipeToken);
    var z := Replace(y, FieldSep, PipeToken);
    ReplaceMatch(z, AttSep, SemiToken);
    var w := Replace(z, AttSep, SemiToken);
    ReplaceSkips(SemiToken, w, "\n", NlToken);
  }

  /** A leading newline is encoded as "<NL>". */
  lemma EncodeNlStep(s: string)
    requires |s| > 0 && s[0] == '\n'
    ensures EncodeText(s) == NlToken + EncodeText(s[1..])
  {
    var y := s[1..];
    assert s == "\n" + y;
    ReplaceSkips("\n", y, FieldSep, PipeToken);
    var z := Replace(y, FieldSep, PipeToken);
    ReplaceSkips("\n", z, AttSep, SemiToken);
    var w := Replace(z, AttSep, SemiToken);
    ReplaceMatch(w, "\n", NlToken);
  }

  /** Any other leading character is kept. */
  lemma EncodeOtherStep(s: string)
    requires |s| > 0 && !(FieldSep <= s) && !(AttSep <= s) && s[0] != '\n'
    ensures EncodeText(s) == [s[0]] + EncodeText(s[1..])
  {
    var c, y := s[0], s[1..];
    assert s == [c] + y;
    ReplaceNoMatch(c, y, FieldSep, PipeToken);
    var z := Replace(y, FieldSep, PipeToken);
    PrefixThrough(";", y, FieldSep, PipeToken);
    assert AttSep <= [c] + z ==> ";" <= z;
    ReplaceNoMatch(c, z, AttSep, SemiToken);
    var w := Replace(z, AttSep, SemiToken);
    assert ([c] + w)[0] == c;
    ReplaceNoMatch(c, w, "\n", NlToken);
  }

  /** Decoding a leading "<PIPE>". */
  lemma DecodePipe(y: string)
    ensures DecodeText(PipeToken + y) == FieldSep + DecodeText(y)
  {
    ReplaceMatch(y, PipeToken, FieldSep);
    var z := Replace(y, PipeToken, FieldSep);
    ReplaceSkips(FieldSep, z, SemiToken, AttSep);
    ReplaceSkips(FieldSep, Replace(z, SemiToken, AttSep), NlToken, "\n");
  }

  /** Each token is '<' followed by its name. */
  lemma TokenShapes()
    ensures PipeToken == ['<'] + "PIPE>" && SemiToken == ['<'] + "SEMI>" && NlToken == ['<'] + "NL>"
  {
  }

  /** Decoding a leading "<SEMI>". */
  lemma DecodeSemi(y: string)
    ensures DecodeText(SemiToken + y) == AttSep + DecodeText(y)
  {
    TokenShapes();
    NotPrefixAt(PipeToken, SemiToken + y, 1);
    ReplaceSkipsHead(SemiToken, y, PipeToken, FieldSep);
    var z := Replace(y, PipeToken, FieldSep);
    ReplaceMatch(z, SemiToken, AttSep);
    ReplaceSkips(AttSep, Replace(z, SemiToken, AttSep), NlToken, "\n");
  }

  /** Decoding a leading "<NL>". */
  lemma DecodeNl(y: string)
    ensures DecodeText(NlToken + y) == "\n" + DecodeText(y)
  {
    TokenShapes();
    NotPrefixAt(PipeToken, NlToken + y, 1);
    ReplaceSkipsHead(NlToken, y, PipeToken, FieldSep);
    var z := Replace(y, PipeToken, FieldSep);
    NotPrefixAt(SemiToken, NlToken + z, 1);
    ReplaceSkipsHead(NlToken, z, SemiToken, AttSep);
    ReplaceMatch(Replace(z, SemiToken, AttSep), NlToken, "\n");
  }

  /** Decoding a first character that starts no token. */
  lemma DecodeOther(c: char, y: string)
    requires !(PipeToken <= [c] + y) && !(SemiToken <= [c] + y) && !(NlToken <= [c] + y)
    ensures DecodeText([c] + y) == [c] + DecodeText(y)
  {
    TokenShapes();
    ReplaceNoMatch(c, y, PipeToken, FieldSep);
    var z := Replace(y, PipeToken, FieldSep);
    PrefixThrough("SEMI>", y, PipeToken, FieldSep);
    PrefixCons('<', "SEMI>", c, z);
    PrefixCons('<', "SEMI>", c, y);
    ReplaceNoMatch(c, z, SemiToken, AttSep);
    var w := Replace(z, SemiToken, AttSep);
    PrefixThrough("NL>", z, SemiToken, AttSep);
    PrefixThrough("NL>", y, PipeToken, FieldSep);
    PrefixCons('<', "NL>", c, w);
    PrefixCons('<', "NL>", c, y);
    ReplaceNoMatch(c, w, NlToken, "\n");
  }

  /** The three replace passes of `decode_field` are the single pass `Unescape`. */
  lemma {:induction false} DecodeIsUnescape(t: string)
    ensures DecodeText(t) == Unescape(t)
    decreases |t|
  {
    if |t| == 0 {
    } else if PipeToken <= t {
      assert t == PipeToken + t[6..];
      DecodePipe(t[6..]);
      DecodeIsUnescape(t[6..]);
    } else if SemiToken <= t {
      assert t == SemiToken + t[6..];
      DecodeSemi(t[6..]);
      DecodeIsUnescape(t[6..]);
    } else if NlToken <= t {
      assert t == NlToken + t[4..];
      DecodeNl(t[4..]);
      DecodeIsUnescape(t[4..]);
    } else {
      assert t == [t[0]] + t[1..];
      DecodeOther(t[0], t[1..]);
      DecodeIsUnescape(t[1..]);
    }
  }

  /** A text that holds none of the three tokens literally. */
  predicate TokenFree(s: string) {
    !Contains(s, PipeToken) && !Contains(s, SemiToken) && !Contains(s, NlToken)
  }

  lemma TokenFreeTail(s: string)
    requires |s| > 0 && TokenFree(s)
    ensures TokenFree(s[1..])
  {
  }

  /** How `Escape` starts on a non-empty text. */
  lemma EscapeStart(u: string)
    requires |u| > 0
    ensures |Escape(u)| > 0
    ensures FieldSep <= u || AttSep <= u || u[0] == '\n' ==> Escape(u)[0] == '<'
    ensures !(FieldSep <= u) && !(AttSep <= u) && u[0] != '\n' ==> Escape(u) == [u[0]] + Escape(u[1..])
  {
  }

  /** What `Escape(u)` starts with, if it holds no '<', is what `u` starts with. */
  lemma {:induction false} EscapeThrough(w: string, u: string)
    requires '<' !in w
    ensures w <= Escape(u) ==> w <= u
    decreases |u|
  {
    if |u| > 0 && |w| > 0 {
      EscapeStart(u);
      EscapeThrough(w[1..], u[1..]);
      assert !(FieldSep <= u) && !(AttSep <= u) && u[0] != '\n' ==>
        (w <= Escape(u) ==> w[1..] <= Escape(u[1..]));
    }
  }

  lemma UnescapePipe(x: string)
    ensures Unescape(PipeToken + x) == FieldSep + Unescape(x)
  {
    assert (PipeToken + x)[6..] == x;
  }

  lemma UnescapeSemi(x: string)
    ensures Unescape(SemiToken + x) == AttSep + Unescape(x)
  {
    assert (SemiToken + x)[1] == 'S';
    assert (SemiToken + x)[6..] == x;
  }

  lemma UnescapeNl(x: string)
    ensures Unescape(NlToken + x) == "\n" + Unescape(x)
  {
    assert (NlToken + x)[1] == 'N';
    assert (NlToken + x)[4..] == x;
  }

  lemma UnescapeOther(c: char, x: string)
    requires !(PipeToken <= [c] + x) && !(SemiToken <= [c] + x) && !(NlToken <= [c] + x)
    ensures Unescape([c] + x) == [c] + Unescape(x)
  {
    assert ([c] + x)[1..] == x;
  }

  /** Unescaping undoes escaping for a text without literal tokens. */
  lemma {:induction false} UnescapeEscape(s: string)
    requires TokenFree(s)
    ensures Unescape(Escape(s)) == s
    decreases |s|
  {
    if |s| == 0 {
    } else if FieldSep <= s || AttSep <= s {
      var y := s[2..];
      assert TokenFree(y) by {
        TokenFreeTail(s);
        TokenFreeTail(s[1..]);
        assert s[1..][1..] == y;
      }
      assert s == s[..2] + y;
      UnescapeEscape(y);
      if FieldSep <= s {
        UnescapePipe(Escape(y));
      } else {
        UnescapeSemi(Escape(y));
      }
    } else if s[0] == '\n' {
      TokenFreeTail(s);
      UnescapeEscape(s[1..]);
      UnescapeNl(Escape(s[1..]));
      assert s == "\n" + s[1..];
    } else {
      TokenFreeTail(s);
      assert !(PipeToken <= s) && !(SemiToken <= s) && !(NlToken <= s);
      UnescapeEscapedOther(s);
      UnescapeEscape(s[1..]);
      assert s == [s[0]] + s[1..];
    }
  }

  /** A first character that neither starts a separator nor is a newline comes back as itself. */
  lemma UnescapeEscapedOther(s: string)
    requires |s| > 0 && !(FieldSep <= s) && !(AttSep <= s) && s[0] != '\n'
    requires !(PipeToken <= s) && !(SemiToken <= s) && !(NlToken <= s)
    ensures Unescape(Escape(s)) == [s[0]] + Unescape(Escape(s[1..]))
  {
    EscapeStart(s);
    UnescapeHeadOther(s);
  }

  /** With no token at the front of `s`, its first character comes back in front of the unescaped escaped tail. */
  lemma UnescapeHeadOther(s: string)
    requires |s| > 0 && !(PipeToken <= s) && !(SemiToken <= s) && !(NlToken <= s)
    ensures Unescape([s[0]] + Escape(s[1..])) == [s[0]] + Unescape(Escape(s[1..]))
  {
    TokenShapes();
    NoTokenAfter(s, "PIPE>", PipeToken);
    NoTokenAfter(s, "SEMI>", SemiToken);
    NoTokenAfter(s, "NL>", NlToken);
    UnescapeOther(s[0], Escape(s[1..]));
  }

  /** A token that does not start `s` does not start `s` with its tail escaped either. */
  lemma NoTokenAfter(s: string, w: string, token: string)
    requires |s| > 0 && token == ['<'] + w && '<' !in w && !(token <= s)
    ensures !(token <= [s[0]] + Escape(s[1..]))
  {
    var c, y := s[0], s[1..];
    assert s == [c] + y;
    EscapeThrough(w, y);
    PrefixCons('<', w, c, Escape(y));
    PrefixCons('<', w, c, y);
  }

  /**
   * `decode_field(encode_field(s)) == s` for every text that does not hold
   * "<PIPE>", "<SEMI>" or "<NL>" literally.
   */
  lemma DecodeEncode(s: string)
    requires TokenFree(s)
    ensures DecodeText(EncodeText(s)) == s
  {
    EncodeIsEscape(s);
    DecodeIsUnescape(Escape(s));
    UnescapeEscape(s);
  }

  /** A text that holds a token literally does not come back: "<NL>" decodes to a newline. */
  lemma LiteralTokenIsLost()
    ensures EncodeText(NlToken) == NlToken
    ensures DecodeText(EncodeText(NlToken)) == "\n"
  {
    ContainsSkip(NlToken, "", FieldSep);
    ContainsSkip(NlToken, "", AttSep);
    ContainsSkip(NlToken, "", "\n");
    assert NlToken + "" == NlToken;
    ContainsShorter("", FieldSep);
    ContainsShorter("", AttSep);
    ContainsShorter("", "\n");
    ContainsShorter(NlToken, PipeToken);
    ContainsShorter(NlToken, SemiToken);
    ReplaceMatch("", NlToken, "\n");
  }

  /** An encoded field holds no newline: a note stays on one line. */
  lemma {:induction false} EscapeNoNewline(s: string)
    ensures '\n' !in Escape(s)
    decreases |s|
  {
    if |s| > 0 {
      if FieldSep <= s || AttSep <= s {
        EscapeNoNewline(s[2..]);
      } else {
        EscapeNoNewline(s[1..]);
      }
    }
  }

  /** An encoded field holds no "||": the field separator cannot occur inside a field. */
  lemma {:induction false} EscapeNoFieldSep(s: string)
    ensures !Contains(Escape(s), FieldSep)
    decreases |s|
  {
    if |s| == 0 {
      ContainsShorter("", FieldSep);
    } else if FieldSep <= s {
      EscapeNoFieldSep(s[2..]);
      ContainsSkip(PipeToken, Escape(s[2..]), FieldSep);
    } else if AttSep <= s {
      EscapeNoFieldSep(s[2..]);
      ContainsSkip(SemiToken, Escape(s[2..]), FieldSep);
    } else if s[0] == '\n' {
      EscapeNoFieldSep(s[1..]);
      ContainsSkip(NlToken, Escape(s[1..]), FieldSep);
    } else {
      var c, y := s[0], s[1..];
      var x := Escape(y);
      EscapeNoFieldSep(y);
      EscapeThrough("|", y);
      assert s == [c] + y;
      assert FieldSep <= [c] + x ==> FieldSep <= s;
      assert ([c] + x)[1..] == x;
    }
  }

  /** An encoded field ends in '|' only if the field did. */
  lemma {:induction false} EscapeEndsWith(s: string)
    ensures EndsWith(Escape(s), '|') ==> EndsWith(s, '|')
    decreases |s|
  {
    if |s| > 0 {
      var n := if FieldSep <= s || AttSep <= s then 2 else 1;
      var y := s[n..];
      var tok := if FieldSep <= s then PipeToken else if AttSep <= s then SemiToken
                 else if s[0] == '\n' then NlToken else [s[0]];
      assert Escape(s) == tok + Escape(y);
      EscapeEndsWith(y);
      EndsWithConcat(tok, Escape(y), '|');
      assert |y| > 0 ==> |Escape(y)| > 0 && y[|y| - 1] == s[|s| - 1];
    }
  }

  // ---------------------------------------------------------------------------
  // Note lines
  // ---------------------------------------------------------------------------

  /** A note as the organizer keeps it in memory. */
  datatype Note = Note(title: string, category: string, tags: string, content: string,
                       attachments: seq<string>, date: string)

  /** The split fields, with empty fields added until there are six. */
  function PadFields(parts: seq<string>): (padded: seq<string>)
    ensures |padded| == if |parts| < 6 then 6 else |parts|
    ensures forall k :: 0 <= k < |padded| ==> padded[k] == if k < |parts| then parts[k] else ""
  {
    if |parts| < 6 then parts + seq(6 - |parts|, _ => "") else parts
  }

  /** The note the first six (padded) fields stand for; later fields are ignored. */
  function NoteOfFields(parts: seq<string>): Note
    requires |parts| >= 6
  {
    var atts := DecodeText(parts[4]);
    Note(DecodeText(parts[0]), DecodeText(parts[1]), DecodeText(parts[2]), DecodeText(parts[3]),
         if atts == "" then [] else SplitStr(atts, AttSep), DecodeText(parts[5]))
  }

  /** What `parse_note_line` returns for a line. */
  function NoteOfLine(line: string): Note {
    NoteOfFields(PadFields(SplitStr(RStripChar(line, '\n'), FieldSep)))
  }

  /**
   * `parse_note_line`: strip trailing newlines, split on "||", append empty
   * fields while fewer than six, decode each field and split the
   * attachments on ";;" unless that field is empty.
   */
  method ParseNoteLine(line: string) returns (note: Note)
    ensures note == NoteOfLine(line)
  {
    var parts := SplitStr(RStripChar(line, '\n'), FieldSep);
    ghost var split := parts;
    while |parts| < 6
      invariant |split| <= |parts| && parts[..|split|] == split
      invariant forall k :: |split| <= k < |parts| ==> parts[k] == ""
      invariant |split| < 6 ==> |parts| <= 6
      invariant |split| >= 6 ==> parts == split
      decreases 6 - |parts|
    {
      parts := parts + [""];
    }
    assert parts == PadFields(split);
    note := NoteOfFields(parts);
  }

  /** Fields missing from a short line read as empty, and no attachments. */
  lemma ShortLineFields(t: string)
    requires '|' !in t && '<' !in t && '\n' !in t
    ensures NoteOfLine(t + "\n") == Note(t, "", "", "", [], "")
  {
    RStripOneNewline(t);
    assert t + "" == t;
    ContainsSkip(t, "", FieldSep);
    ContainsShorter("", FieldSep);
    SplitStrNone(t, FieldSep);
    ContainsSkip(t, "", PipeToken);
    ContainsSkip(t, "", SemiToken);
    ContainsSkip(t, "", NlToken);
    ContainsShorter("", PipeToken);
    ContainsShorter("", SemiToken);
    ContainsShorter("", NlToken);
    assert PadFields([t]) == [t, "", "", "", "", ""];
  }

  /** The six stored fields of a note, the attachments joined by ";;". */
  function Fields(n: Note): (fields: seq<string>)
    ensures |fields| == 6 && fields[4] == Join(n.attachments, AttSep)
  {
    [n.title, n.category, n.tags, n.content, Join(n.attachments, AttSep), n.date]
  }

  /** Every field escaped. */
  function EncodeAll(fields: seq<string>): (enc: seq<string>)
    ensures |enc| == |fields|
    ensures forall k :: 0 <= k < |fields| ==> enc[k] == EncodeText(fields[k])
  {
    seq(|fields|, k requires 0 <= k < |fields| => EncodeText(fields[k]))
  }

  /**
   * The notes a line round-trips: no field holds a token literally, no field
   * before the date ends in '|', and the attachments are not one empty name,
   * hold no ";;" and, but for the last, do not end in ';'.
   */
  predicate Storable(n: Note) {
    && TokenFree(n.title) && TokenFree(n.category) && TokenFree(n.tags)
    && TokenFree(n.content) && TokenFree(n.date)
    && (forall k :: 0 <= k < |n.attachments| ==> TokenFree(n.attachments[k]))
    && (forall k :: 0 <= k < 5 ==> !EndsWith(Fields(n)[k], '|'))
    && n.attachments != [""]
    && (forall k :: 0 <= k < |n.attachments| ==> !Contains(n.attachments[k], AttSep))
    && (forall k :: 0 <= k < |n.attachments| - 1 ==> !EndsWith(n.attachments[k], ';'))
  }

  /** The facts about one encoded field that the line format needs. */
  lemma EncodedField(s: string)
    ensures '\n' !in EncodeText(s)
    ensures !Contains(EncodeText(s), FieldSep)
    ensures EndsWith(EncodeText(s), '|') ==> EndsWith(s, '|')
  {
    EncodeIsEscape(s);
    EscapeNoNewline(s);
    EscapeNoFieldSep(s);
    EscapeEndsWith(s);
  }

  /** The attachments, joined by ";;", hold no token when none of them does. */
  lemma JoinedAttachmentsTokenFree(atts: seq<string>)
    requires forall k :: 0 <= k < |atts| ==> TokenFree(atts[k])
    ensures TokenFree(Join(atts, AttSep))
  {
    JoinedAttachmentsFree(atts, PipeToken);
    JoinedAttachmentsFree(atts, SemiToken);
    JoinedAttachmentsFree(atts, NlToken);
  }

  /** The attachments, joined by ";;", hold no text without ';' that none of them holds. */
  lemma JoinedAttachmentsFree(atts: seq<string>, token: string)
    requires token in {PipeToken, SemiToken, NlToken}
    requires forall k :: 0 <= k < |atts| ==> !Contains(atts[k], token)
    ensures !Contains(Join(atts, AttSep), token)
  {
    assert AttSep == [';', ';'];
    assert ';' !in token;
    JoinNoContains(atts, AttSep, token);
  }

  /** The attachments field decodes back into the list it was joined from. */
  lemma AttachmentsRoundTrip(atts: seq<string>)
    requires atts != [""]
    requires forall k :: 0 <= k < |atts| ==> !Contains(atts[k], AttSep)
    requires forall k :: 0 <= k < |atts| - 1 ==> !EndsWith(atts[k], ';')
    ensures (if Join(atts, AttSep) == "" then [] else SplitStr(Join(atts, AttSep), AttSep)) == atts
  {
    if Join(atts, AttSep) == "" {
      JoinEmpty(atts, AttSep);
    } else {
      assert AttSep == [';', ';'];
      SplitStrJoin(atts, ';');
    }
  }

  /** `build_note_line`: the six escaped fields joined by "||", then a newline. */
  function BuildNoteLine(n: Note): (line: string)
    ensures |line| > 0 && line[|line| - 1] == '\n'
  {
    Join(EncodeAll(Fields(n)), FieldSep) + "\n"
  }

  /**
   * Escaped fields joined by "||" split back into the same escaped fields
   * when none but the last ends in '|'.
   */
  lemma SplitEncoded(fields: seq<string>)
    requires |fields| > 0
    requires forall k :: 0 <= k < |fields| - 1 ==> !EndsWith(fields[k], '|')
    ensures SplitStr(RStripChar(Join(EncodeAll(fields), FieldSep) + "\n", '\n'), FieldSep) == EncodeAll(fields)
  {
    var enc := EncodeAll(fields);
    forall k | 0 <= k < |enc|
      ensures '\n' !in enc[k] && !Contains(enc[k], FieldSep)
      ensures EndsWith(enc[k], '|') ==> EndsWith(fields[k], '|')
    {
      EncodedField(fields[k]);
    }
    JoinNoChar(enc, FieldSep, '\n');
    RStripOneNewline(Join(enc, FieldSep));
    assert FieldSep == ['|', '|'];
    SplitStrJoin(enc, '|');
  }

  /** `parse_note_line(build_note_line(n)) == n` for every storable note. */
  lemma ParseBuild(n: Note)
    requires Storable(n)
    ensures NoteOfLine(BuildNoteLine(n)) == n
  {
    var fields := Fields(n);
    SplitEncoded(fields);
    assert PadFields(EncodeAll(fields)) == EncodeAll(fields);
    JoinedAttachmentsTokenFree(n.attachments);
    DecodeEncode(n.title);
    DecodeEncode(n.category);
    DecodeEncode(n.tags);
    DecodeEncode(n.content);
    DecodeEncode(fields[4]);
    DecodeEncode(n.date);
    AttachmentsRoundTrip(n.attachments);
  }
}
