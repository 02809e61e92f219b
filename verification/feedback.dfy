/**
 The telemetry port: each read gives one chunk of text, from which the payload of
 the first joints frame (`[2102]`) and of the first cartesian frame (`[2103]`) is
 cut out with `find` and slicing, cleaned, and split at commas. Each field must be
 accepted by `float`; the values themselves are kept as the field texts.
 */
module Feedback {
  import opened Wrappers
  import opened Strings
  import opened Floats
  import Decoder

  /** The driver's telemetry state: whether a socket is held, and the last joint
      and cartesian tuples stored. */
  datatype Telemetry = Telemetry(hasSocket: bool, joints: seq<string>, cartesian: seq<string>)

  /** A new feedback object: no socket and two empty tuples. */
  function Fresh(): (t: Telemetry)
    ensures !t.hasSocket && |t.joints| == 0 && |t.cartesian| == 0
  {
    Telemetry(false, [], [])
  }

  const JointsMarker: string := "[2102]"
  const CartesianMarker: string := "[2103]"

  /** The frame `marker` opens, as the two slices cut it: from the first
      occurrence of the marker (or, when it is missing, from the last character,
      as a slice at -1 does), up to the first NUL after that point (or up to the
      last character when there is none). */
  function Cut(response: string, marker: string): (frame: string)
    ensures |frame| <= |response|
    ensures var k := SliceBound(Find(response, marker), |response|);
            k + |frame| <= |response| && frame == response[k..k + |frame|]
    ensures Nul !in frame
  {
    var tail := SliceFrom(response, Find(response, marker));
    var end := Find(tail, [Nul]);
    var frame := SliceTo(tail, end);
    assert Nul !in frame by {
      forall j | 0 <= j < |frame|
        ensures frame[j] != Nul
      {
        assert frame[j] == tail[j];
        NotAtChar(tail, Nul, j);
      }
    }
    frame
  }

  /** The fields of the frame `marker` opens: `marker[` and every `]` deleted
      from the cut frame, and the rest split at commas. */
  function Extract(response: string, marker: string): (fields: seq<string>)
    ensures |fields| > 0
    ensures forall i :: 0 <= i < |fields| ==> ',' !in fields[i]
  {
    Split(RemoveAll(RemoveAll(Cut(response, marker), marker + "["), "]"), ',')
  }

  /** What the telemetry markers have in common: an opening bracket first and no NUL. */
  predicate MarkerShape(marker: string) {
    |marker| > 0 && marker[0] == '[' && Nul !in marker
  }

  lemma MarkersShape()
    ensures MarkerShape(JointsMarker) && MarkerShape(CartesianMarker)
  {
    assert JointsMarker == ['[', '2', '1', '0', '2', ']'];
    assert CartesianMarker == ['[', '2', '1', '0', '3', ']'];
  }

  /** `_getJoints`: store the joints fields, or raise ValueError (None) when
      `float` rejects one of them, leaving the state as it was. */
  function GetJoints(t: Telemetry, response: string): (r: Option<Telemetry>)
    ensures r.Some? <==> AllFloats(Extract(response, JointsMarker))
    ensures r.Some? ==> r.value.joints == Extract(response, JointsMarker)
    ensures r.Some? ==> r.value.cartesian == t.cartesian && r.value.hasSocket == t.hasSocket
  {
    var fields := Extract(response, JointsMarker);
    if AllFloats(fields) then Some(t.(joints := fields)) else None
  }

  /** `_getCartesian`: the same for the cartesian frame, leaving the joints alone. */
  function GetCartesian(t: Telemetry, response: string): (r: Option<Telemetry>)
    ensures r.Some? <==> AllFloats(Extract(response, CartesianMarker))
    ensures r.Some? ==> r.value.cartesian == Extract(response, CartesianMarker)
    ensures r.Some? ==> r.value.joints == t.joints && r.value.hasSocket == t.hasSocket
  {
    var fields := Extract(response, CartesianMarker);
    if AllFloats(fields) then Some(t.(cartesian := fields)) else None
  }

  /** `getData`: nothing happens without a socket or when the read times out
      (`read` is None); otherwise joints and then cartesian are updated from the
      chunk read. The flag in the result is set when ValueError escapes; the joints
      update, once made, stays made, and a failed joints update stops the call
      before the cartesian one. */
  function GetData(t: Telemetry, read: Option<string>): (r: (Telemetry, bool))
    ensures !t.hasSocket || read.None? ==> r == (t, false)
    ensures r.0.hasSocket == t.hasSocket
    ensures r.0.joints != t.joints ==> t.hasSocket && read.Some? && r.0.joints == Extract(read.value, JointsMarker)
    ensures r.0.cartesian != t.cartesian ==>
              t.hasSocket && read.Some? && !r.1 && r.0.cartesian == Extract(read.value, CartesianMarker)
    ensures !r.1 && t.hasSocket && read.Some? ==>
              && r.0.joints == Extract(read.value, JointsMarker)
              && r.0.cartesian == Extract(read.value, CartesianMarker)
    ensures t.hasSocket && read.Some? ==>
              (r.1 <==> !(AllFloats(Extract(read.value, JointsMarker)) && AllFloats(Extract(read.value, CartesianMarker))))
    ensures t.hasSocket && read.Some? && AllFloats(Extract(read.value, JointsMarker)) ==>
              r.0.joints == Extract(read.value, JointsMarker)
    ensures t.hasSocket && read.Some? && !AllFloats(Extract(read.value, JointsMarker)) ==> r.0 == t
  {
    if !t.hasSocket then (t, false)
    else
      match read
      case None => (t, false)
      case Some(response) =>
        match GetJoints(t, response)
        case None => (t, true)
        case Some(u) =>
          match GetCartesian(u, response)
          case None => (u, true)
          case Some(v) => (v, false)
  }

  /** The frame a telemetry marker opens, as the robot sends it, without the
      NUL that ends it. */
  function MarkedFrame(marker: string, fields: seq<string>): (frame: string)
    ensures marker <= frame
    ensures |frame| == |marker| + |Join(fields, ',')| + 2
  {
    marker + "[" + Join(fields, ',') + "]"
  }

  /** A chunk holding the frame `marker[f1,...,fn]` and NUL, with no earlier
      occurrence of the marker, gives back exactly the fields `f1` to `fn`,
      whatever follows, including later frames with the same marker. */
  lemma ExtractFrame(pre: string, marker: string, fields: seq<string>, post: string)
    requires MarkerShape(marker)
    requires Find(pre + marker, marker) == |pre|
    requires |fields| > 0
    requires forall i :: 0 <= i < |fields| ==> Decoder.FieldText(fields[i])
    ensures Extract(pre + (MarkedFrame(marker, fields) + [Nul] + post), marker) == fields
  {
    var body := Join(fields, ',');
    Decoder.JoinChars(fields, ',');
    NoNulInFrame(marker, body);
    CutAt(pre, MarkedFrame(marker, fields), post, marker);
    CleanMarkedFrame(marker, body);
    SplitJoin(fields, ',');
  }

  lemma NoNulInFrame(marker: string, body: string)
    requires MarkerShape(marker) && Nul !in body
    ensures Nul !in marker + "[" + body + "]"
  {
    NoNulInOpenFrame(marker, body);
    assert Nul !in (marker + "[" + body) + "]";
  }

  lemma NoNulInOpenFrame(marker: string, body: string)
    requires MarkerShape(marker) && Nul !in body
    ensures Nul !in marker + "[" + body
    ensures marker <= marker + "[" + body
  {
    var frame := marker + "[" + body;
    forall i | 0 <= i < |frame|
      ensures frame[i] != Nul
    {
      if i < |marker| {
        assert frame[i] == marker[i];
      } else if i > |marker| {
        assert frame[i] == body[i - |marker| - 1];
      }
    }
    assert frame[..|marker|] == marker;
  }

  /** The two slices cut out exactly the text from the first marker up to the
      first NUL after it. */
  lemma CutAt(pre: string, frame: string, post: string, marker: string)
    requires marker <= frame && Nul !in frame
    requires Find(pre + marker, marker) == |pre|
    ensures Cut(pre + (frame + [Nul] + post), marker) == frame
  {
    var tail := frame + [Nul] + post;
    MarkerFoundFirst(pre, tail, marker);
    assert (pre + tail)[|pre|..] == tail;
    NulAfterFrame(frame, post);
    assert tail[..|frame|] == frame;
  }

  /** The same for a chunk that ends, without NUL, one character after the frame. */
  lemma CutOpenAt(pre: string, frame: string, c: char, marker: string)
    requires marker <= frame && Nul !in frame && c != Nul
    requires Find(pre + marker, marker) == |pre|
    ensures Cut(pre + (frame + [c]), marker) == frame
  {
    var tail := frame + [c];
    MarkerFoundFirst(pre, tail, marker);
    assert (pre + tail)[|pre|..] == tail;
    assert Nul !in tail;
    FirstCharAbsent(tail, [Nul]);
    assert tail[..|tail| - 1] == frame;
  }

  /** A chunk that continues `pre` with the marker finds it where `pre` ends. */
  lemma MarkerFoundFirst(pre: string, tail: string, marker: string)
    requires marker <= tail
    requires Find(pre + marker, marker) == |pre|
    ensures Find(pre + tail, marker) == |pre|
  {
    var rest := tail[|marker|..];
    assert tail == marker + rest;
    assert pre + tail == (pre + marker) + rest;
    FindAppend(pre + marker, rest, marker);
  }

  /** The first NUL after a frame free of NUL is the one that ends it. */
  lemma NulAfterFrame(frame: string, post: string)
    requires Nul !in frame
    ensures Find(frame + [Nul] + post, [Nul]) == |frame|
  {
    var tail := frame + [Nul] + post;
    assert tail[|frame|..|frame| + 1] == [Nul];
    forall j | 0 <= j < |frame|
      ensures !OccursAt(tail, [Nul], j)
    {
      assert tail[j..j + 1][0] == frame[j];
    }
    FindFirst(tail, [Nul], |frame|);
  }

  /** Deleting `marker[` and every `]` from a frame leaves its body. */
  lemma CleanMarkedFrame(marker: string, body: string)
    requires MarkerShape(marker)
    requires '[' !in body && ']' !in body
    ensures RemoveAll(RemoveAll(marker + "[" + body + "]", marker + "["), "]") == body
  {
    var head := marker + "[";
    assert marker + "[" + body + "]" == head + (body + "]");
    RemoveAllLeading(head, body + "]");
    assert head[0] == '[';
    RemoveAllAbsent(body + "]", head);
    RemoveCharAppend(body, "]", "]");
    RemoveAllAbsent(body, "]");
    assert RemoveAll("]", "]") == "";
  }

  /** Without the marker, the slice at -1 keeps at most the last character, and
      the cut at the next NUL (or at -1) leaves nothing: a single empty field. */
  lemma ExtractMissingMarker(response: string, marker: string)
    requires Find(response, marker) == -1
    ensures Extract(response, marker) == [""]
  {
    MissingMarkerCut(response, marker);
    assert RemoveAll("", marker + "[") == "";
    assert RemoveAll("", "]") == "";
  }

  lemma MissingMarkerCut(response: string, marker: string)
    requires Find(response, marker) == -1
    ensures Cut(response, marker) == ""
  {
    var tail := SliceFrom(response, -1);
    assert |tail| <= 1;
    var end := Find(tail, [Nul]);
    if |tail| == 1 && tail[0] == Nul {
      assert OccursAt(tail, [Nul], 0);
      FindFirst(tail, [Nul], 0);
    }
    assert SliceTo(tail, end) == "";
  }

  /** So a chunk without a joints frame makes `_getJoints` raise. */
  lemma MissingJointsRaise(t: Telemetry, response: string)
    requires Find(response, JointsMarker) == -1
    ensures GetJoints(t, response).None?
  {
    ExtractMissingMarker(response, JointsMarker);
    EmptyIsNotFloat();
    var fields := [""];
    assert !IsFloatLiteral(fields[0]);
  }

  /** A chunk cut short with no NUL after the frame loses its last character to
      the slice at -1: a frame cut inside its last field drops that field's last
      character. */
  lemma ExtractCutFrame(pre: string, marker: string, xs: seq<string>, y: string, c: char)
    requires MarkerShape(marker)
    requires Find(pre + marker, marker) == |pre|
    requires forall i :: 0 <= i < |xs| ==> Decoder.FieldText(xs[i])
    requires Decoder.FieldText(y) && Decoder.FieldText([c])
    ensures Extract(pre + (marker + "[" + Join(xs + [y + [c]], ',')), marker) == xs + [y]
  {
    var fields := xs + [y];
    assert forall i :: 0 <= i < |fields| ==> Decoder.FieldText(fields[i]);
    var body := Join(fields, ',');
    Decoder.JoinChars(fields, ',');
    var frame := marker + "[" + body;
    CutLastField(marker, xs, y, c);
    NoNulInOpenFrame(marker, body);
    CutOpenAt(pre, frame, c, marker);
    CleanCutFrame(marker, body);
    SplitJoin(fields, ',');
  }

  /** An open frame whose last field ends in `c` is the frame of the shorter
      field followed by `c`. */
  lemma CutLastField(marker: string, xs: seq<string>, y: string, c: char)
    ensures marker + "[" + Join(xs + [y + [c]], ',') == (marker + "[" + Join(xs + [y], ',')) + [c]
  {
    JoinLastPiece(xs, y + [c], ',');
    JoinLastPiece(xs, y, ',');
    assert Join(xs + [y + [c]], ',') == Join(xs + [y], ',') + [c];
  }

  /** Deleting `marker[` and every `]` from an unterminated frame leaves its body. */
  lemma CleanCutFrame(marker: string, body: string)
    requires MarkerShape(marker)
    requires '[' !in body && ']' !in body
    ensures RemoveAll(RemoveAll(marker + "[" + body, marker + "["), "]") == body
  {
    var head := marker + "[";
    RemoveAllLeading(head, body);
    assert head[0] == '[';
    RemoveAllAbsent(body, head);
    RemoveAllAbsent(body, "]");
  }

  /** A chunk carrying a joints frame of two or more fields followed by a
      cartesian frame updates both tuples when `float` accepts every field. */
  lemma GetDataBothFrames(t: Telemetry, joints: seq<string>, cartesian: seq<string>, post: string)
    requires t.hasSocket
    requires |joints| > 1 && |cartesian| > 0
    requires forall i :: 0 <= i < |joints| ==> Decoder.FieldText(joints[i])
    requires forall i :: 0 <= i < |cartesian| ==> Decoder.FieldText(cartesian[i])
    requires AllFloats(joints) && AllFloats(cartesian)
    ensures var response := MarkedFrame(JointsMarker, joints) + [Nul]
                          + (MarkedFrame(CartesianMarker, cartesian) + [Nul] + post);
            GetData(t, Some(response)) == (t.(joints := joints, cartesian := cartesian), false)
  {
    var response := MarkedFrame(JointsMarker, joints) + [Nul]
                  + (MarkedFrame(CartesianMarker, cartesian) + [Nul] + post);
    JointsOfBoth(joints, cartesian, post);
    CartesianOfBoth(joints, cartesian, post);
    var u := t.(joints := joints);
    assert GetJoints(t, response) == Some(u);
    assert GetCartesian(u, response) == Some(u.(cartesian := cartesian));
  }

  lemma JointsOfBoth(joints: seq<string>, cartesian: seq<string>, post: string)
    requires |joints| > 0
    requires forall i :: 0 <= i < |joints| ==> Decoder.FieldText(joints[i])
    ensures Extract(MarkedFrame(JointsMarker, joints) + [Nul]
                    + (MarkedFrame(CartesianMarker, cartesian) + [Nul] + post), JointsMarker) == joints
  {
    MarkersShape();
    var second := MarkedFrame(CartesianMarker, cartesian) + [Nul] + post;
    assert OccursAt(JointsMarker, JointsMarker, 0);
    FindFirst(JointsMarker, JointsMarker, 0);
    assert "" + JointsMarker == JointsMarker;
    ExtractFrame("", JointsMarker, joints, second);
    assert "" + (MarkedFrame(JointsMarker, joints) + [Nul] + second)
        == MarkedFrame(JointsMarker, joints) + [Nul] + second;
  }

  lemma CartesianOfBoth(joints: seq<string>, cartesian: seq<string>, post: string)
    requires |joints| > 1 && |cartesian| > 0
    requires forall i :: 0 <= i < |joints| ==> Decoder.FieldText(joints[i])
    requires forall i :: 0 <= i < |cartesian| ==> Decoder.FieldText(cartesian[i])
    ensures Extract(MarkedFrame(JointsMarker, joints) + [Nul]
                    + (MarkedFrame(CartesianMarker, cartesian) + [Nul] + post), CartesianMarker) == cartesian
  {
    MarkersShape();
    var first := MarkedFrame(JointsMarker, joints) + [Nul];
    Decoder.JoinChars(joints, ',');
    JoinHasComma(joints);
    CartesianAfterJoints(first, Join(joints, ','));
    ExtractFrame(first, CartesianMarker, cartesian, post);
  }

  /** Two or more fields joined show a comma. */
  lemma JoinHasComma(fields: seq<string>)
    requires |fields| > 1
    ensures ',' in Join(fields, ',')
  {
    var j := Join(fields, ',');
    assert j == fields[0] + [','] + Join(fields[1..], ',');
    assert j[|fields[0]|] == ',';
  }

  /** The cartesian marker does not occur in a joints frame whose payload has a
      comma, so its first occurrence is the one right after it. (A lone joints
      field `2103` would put one inside.) */
  lemma CartesianAfterJoints(first: string, body: string)
    requires first == JointsMarker + "[" + body + "]" + [Nul]
    requires '[' !in body && ']' !in body && ',' in body
    ensures Find(first + CartesianMarker, CartesianMarker) == |first|
  {
    var s := first + CartesianMarker;
    assert s[|first|..|first| + |CartesianMarker|] == CartesianMarker;
    forall j | 0 <= j < |first|
      ensures !OccursAt(s, CartesianMarker, j)
    {
      NoCartesianAt(first, body, j);
    }
    FindFirst(s, CartesianMarker, |first|);
  }

  lemma NoCartesianAt(first: string, body: string, j: nat)
    requires first == JointsMarker + "[" + body + "]" + [Nul]
    requires '[' !in body && ']' !in body && ',' in body
    requires j < |first|
    ensures !OccursAt(first + CartesianMarker, CartesianMarker, j)
  {
    var s := first + CartesianMarker;
    var n := |body|;
    if j + 6 <= |s| {
      var w := s[j..j + 6];
      if j == 0 {
        assert w[4] == JointsMarker[4] != CartesianMarker[4];
      } else if j < 6 {
        assert s[j] == first[j] == JointsMarker[j];
        assert w[0] != CartesianMarker[0];
      } else if j == 6 {
        assert forall i :: 0 <= i < n ==> s[7 + i] == body[i];
        if n >= 5 {
          assert w[5] == body[4] != ']';
        } else {
          var k :| 0 <= k < n && body[k] == ',';
          assert w[k + 1] == ',' != CartesianMarker[k + 1];
        }
      } else if j < 7 + n {
        assert w[0] == body[j - 7] != '[';
      } else if j == 7 + n {
        assert w[0] == ']';
      } else {
        assert w[0] == Nul;
      }
    }
  }
}
