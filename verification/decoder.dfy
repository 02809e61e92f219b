/**
 Decoding a reply of the control port by the code it was matched with:
 position replies become tuples of numbers, status replies tuples of integers,
 every other reply its cleaned text.
 */
module Decoder {
  import opened Wrappers
  import opened Strings
  import opened Decimal
  import opened Floats
  import opened Seqs

  /** The code a reply is decoded with. Acknowledgement codes are Python integers;
      error codes are handed over as the strings of their digits, so they never
      equal an integer key. */
  datatype Key = AnswerKey(code: int) | ErrorKey(code: int)

  /** The result of decoding. Numbers keeps the text of each field, every one of
      them accepted by `float`; ValueError stands for the exception `int` or
      `float` raises on a field it rejects. */
  datatype Decoded = Text(text: string) | Ints(values: seq<int>) | Numbers(fields: seq<string>) | ValueError

  /** A frame as the robot sends it: `[code][payload]` and a terminating NUL. */
  function Frame(code: int, payload: string): string {
    "[" + IntToString(code) + "][" + payload + "]" + [Nul]
  }

  /** GetJoints (2026) and GetPose (2027) replies carry positions. */
  predicate IsPositionKey(key: Key) {
    key.AnswerKey? && (key.code == 2026 || key.code == 2027)
  }

  /** GetConf (2029), GetStatusRobot (2007) and GetStatusGripper (2079) replies
      carry integers. */
  predicate IsStatusKey(key: Key) {
    key.AnswerKey? && (key.code == 2029 || key.code == 2007 || key.code == 2079)
  }

  /** The cleaning step: delete `[key][`, then every `]`, then every NUL. */
  function Clean(response: string, key: Key): (cleaned: string)
    ensures ']' !in cleaned && Nul !in cleaned
    ensures |cleaned| <= |response|
  {
    RemoveAll(RemoveAll(RemoveAll(response, "[" + IntToString(key.code) + "]["), "]"), [Nul])
  }

  /** `int` accepts every field. */
  predicate AllInts(fields: seq<string>) {
    Every(IsIntLiteral, fields)
  }

  lemma AllIntsEach(fields: seq<string>)
    ensures AllInts(fields) <==> forall i :: 0 <= i < |fields| ==> IsIntLiteral(fields[i])
  {
    EveryEach(IsIntLiteral, fields);
  }

  /** `int` applied to every field, or None when it rejects one of them. */
  function ParseInts(fields: seq<string>): (r: Option<seq<int>>)
    ensures r.Some? <==> AllInts(fields)
    ensures r.Some? ==> |r.value| == |fields|
  {
    AllIntsEach(fields);
    TryMap(ParseInt, fields)
  }

  /** `_decodeMsg`: the cleaned reply cut at commas, read as numbers for position
      replies and as integers for status replies, or the cleaned text itself. */
  function Decode(response: string, key: Key): (d: Decoded)
    ensures IsPositionKey(key) ==> d.Numbers? || d.ValueError?
    ensures IsPositionKey(key) ==> (d.Numbers? <==> AllFloats(Split(Clean(response, key), ',')))
    ensures d.Numbers? ==> d.fields == Split(Clean(response, key), ',')
    ensures d.Numbers? ==> |d.fields| == Count(Clean(response, key), ',') + 1
    ensures IsStatusKey(key) ==> d.Ints? || d.ValueError?
    ensures IsStatusKey(key) ==> (d.Ints? <==> AllInts(Split(Clean(response, key), ',')))
    ensures d.Ints? ==> |d.values| == Count(Clean(response, key), ',') + 1
    ensures d.Ints? ==> ParseInts(Split(Clean(response, key), ',')) == Some(d.values)
    ensures d.Text? ==> d.text == Clean(response, key)
    ensures !IsPositionKey(key) && !IsStatusKey(key) ==> d.Text? && ']' !in d.text && Nul !in d.text
    ensures key.ErrorKey? ==> d.Text?
  {
    var cleaned := Clean(response, key);
    var fields := Split(cleaned, ',');
    if IsPositionKey(key) then
      if AllFloats(fields) then Numbers(fields) else ValueError
    else if IsStatusKey(key) then
      match ParseInts(fields)
      case Some(values) => Ints(values)
      case None => ValueError
    else Text(cleaned)
  }

  /** Cleaning a frame gives back its payload, provided the payload has no
      brackets and no NUL. */
  lemma CleanFrame(code: int, payload: string)
    requires '[' !in payload && ']' !in payload && Nul !in payload
    ensures forall key: Key :: key.code == code ==> Clean(Frame(code, payload), key) == payload
  {
    var head := "[" + IntToString(code) + "][";
    var rest := payload + "]" + [Nul];
    assert Frame(code, payload) == head + rest;
    RemoveAllLeading(head, rest);
    assert '[' !in rest;
    RemoveAllAbsent(rest, head);
    RemoveCharAppend(payload, "]" + [Nul], "]");
    assert payload + "]" + [Nul] == payload + ("]" + [Nul]);
    RemoveAllAbsent(payload, "]");
    RemoveCharAppend("]", [Nul], "]");
    RemoveAllAbsent([Nul], "]");
    assert RemoveAll("]", "]") == "";
    RemoveAllAbsent(payload, [Nul]);
    RemoveCharAppend(payload, [Nul], [Nul]);
    assert RemoveAll([Nul], [Nul]) == "";
  }

  /** Each value read is what `int` gives for the field at the same place. */
  lemma ParseIntsAt(fields: seq<string>, i: nat)
    requires ParseInts(fields).Some? && i < |fields|
    ensures ParseInt(fields[i]) == Some(ParseInts(fields).value[i])
  {
    TryMapAt(ParseInt, fields, i);
  }

  /** `int` reads back every integer `str` wrote. */
  lemma {:induction false} ParseIntTexts(values: seq<int>)
    ensures ParseInts(IntTexts(values)) == Some(values)
    decreases |values|
  {
    if |values| > 0 {
      ParseIntTexts(values[1..]);
      ParseIntTextsStep(values);
    }
  }

  lemma ParseIntTextsStep(values: seq<int>)
    requires |values| > 0
    requires ParseInts(IntTexts(values[1..])) == Some(values[1..])
    ensures ParseInts(IntTexts(values)) == Some(values)
  {
    var v, vs := values[0], values[1..];
    IntToStringRoundTrip(v);
    TryMapCons(ParseInt, IntToString(v), IntTexts(vs), v, vs);
    HeadTail(values);
  }

  lemma HeadTail(s: seq<int>)
    requires |s| > 0
    ensures [s[0]] + s[1..] == s
  {
  }

  /** The payload of a frame, cut at commas, gives back the fields it was
      joined from when they carry no separator, bracket or NUL. */
  lemma SplitFrame(code: int, fields: seq<string>)
    requires |fields| > 0
    requires forall i :: 0 <= i < |fields| ==> FieldText(fields[i])
    ensures forall key: Key :: key.code == code ==> Split(Clean(Frame(code, Join(fields, ',')), key), ',') == fields
  {
    JoinChars(fields, ',');
    CleanFrame(code, Join(fields, ','));
    SplitJoin(fields, ',');
  }

  /** A status frame of integers written by `str` decodes to those integers. */
  lemma DecodeStatusFrame(code: int, values: seq<int>)
    requires code == 2029 || code == 2007 || code == 2079
    requires |values| > 0
    ensures Decode(Frame(code, Join(IntTexts(values), ',')), AnswerKey(code)) == Ints(values)
  {
    var fields := IntTexts(values);
    SplitFrame(code, fields);
    assert Split(Clean(Frame(code, Join(fields, ',')), AnswerKey(code)), ',') == fields;
    ParseIntTexts(values);
  }

  /** A position frame decodes to its fields, in order, when `float` accepts each. */
  lemma DecodePositionFrame(code: int, fields: seq<string>)
    requires code == 2026 || code == 2027
    requires |fields| > 0
    requires forall i :: 0 <= i < |fields| ==> FieldText(fields[i]) && IsFloatLiteral(fields[i])
    ensures Decode(Frame(code, Join(fields, ',')), AnswerKey(code)) == Numbers(fields)
  {
    SplitFrame(code, fields);
    AllFloatsEach(fields);
  }

  /** A position frame with an empty field, such as the one between two adjacent
      commas, makes `float` raise. */
  lemma EmptyPositionField(code: int, fields: seq<string>, i: nat)
    requires code == 2026 || code == 2027
    requires i < |fields| && fields[i] == ""
    requires forall j :: 0 <= j < |fields| ==> FieldText(fields[j])
    ensures Decode(Frame(code, Join(fields, ',')), AnswerKey(code)) == ValueError
  {
    SplitFrame(code, fields);
    EmptyIsNotFloat();
    AllFloatsEach(fields);
  }

  /** Any other acknowledgement frame decodes to its payload text. */
  lemma DecodeTextFrame(code: int, payload: string)
    requires !IsPositionKey(AnswerKey(code)) && !IsStatusKey(AnswerKey(code))
    requires '[' !in payload && ']' !in payload && Nul !in payload
    ensures Decode(Frame(code, payload), AnswerKey(code)) == Text(payload)
  {
    CleanFrame(code, payload);
  }

  /** A field of a numeric payload: no separator, bracket or NUL inside. */
  predicate FieldText(s: string) {
    ',' !in s && '[' !in s && ']' !in s && Nul !in s
  }

  /** `str` applied to every value. */
  function IntTexts(values: seq<int>): (texts: seq<string>)
    ensures |texts| == |values|
    ensures forall i :: 0 <= i < |values| ==> FieldText(texts[i])
  {
    if |values| == 0 then []
    else
      var t := IntToString(values[0]);
      assert FieldText(t);
      [t] + IntTexts(values[1..])
  }

  /** Joining fields free of brackets and NUL gives text free of them. */
  lemma {:induction false} JoinChars(parts: seq<string>, sep: char)
    requires sep != '[' && sep != ']' && sep != Nul
    requires forall i :: 0 <= i < |parts| ==> '[' !in parts[i] && ']' !in parts[i] && Nul !in parts[i]
    ensures '[' !in Join(parts, sep) && ']' !in Join(parts, sep) && Nul !in Join(parts, sep)
    decreases |parts|
  {
    if |parts| > 1 {
      JoinChars(parts[1..], sep);
    }
  }
}
