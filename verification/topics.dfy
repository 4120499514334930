/**
 Message-bus topics.

 Both stream processors recover the room from the topic they received by
 splitting it on "/" and taking the second segment, falling back to
 "unknown" when that segment is absent or empty (`parts[1] || "unknown"`).
 */
module Topics {

  const Sep: char := '/'
  const UnknownRoom: string := "unknown"

  /** No separator inside a segment. */
  predicate IsSegment(s: string) {
    Sep !in s
  }

  /** `topic.split("/")`: the maximal separator-free pieces, empty ones included. */
  function Split(s: string): (parts: seq<string>)
    ensures |parts| >= 1
    ensures forall i :: 0 <= i < |parts| ==> IsSegment(parts[i])
    ensures |parts| == 1 + CountSep(s)
  {
    if |s| == 0 then [""]
    else
      var rest := Split(s[1..]);
      if s[0] == Sep then [""] + rest
      else [[s[0]] + rest[0]] + rest[1..]
  }

  /** Number of separators in `s`. */
  function CountSep(s: string): nat {
    if |s| == 0 then 0 else (if s[0] == Sep then 1 else 0) + CountSep(s[1..])
  }

  /** `parts.join("/")`. */
  function Join(parts: seq<string>): string
    requires |parts| >= 1
  {
    if |parts| == 1 then parts[0] else parts[0] + [Sep] + Join(parts[1..])
  }

  /** Splitting loses nothing: joining the pieces gives back the topic. */
  lemma {:induction false} JoinSplit(s: string)
    ensures Join(Split(s)) == s
  {
    if |s| == 0 {
    } else {
      var rest := Split(s[1..]);
      JoinSplit(s[1..]);
      if s[0] == Sep {
        assert Split(s) == [""] + rest;
        assert Join(Split(s)) == "" + [Sep] + Join(rest);
        assert s == [s[0]] + s[1..];
      } else if |rest| == 1 {
        assert Join(Split(s)) == [s[0]] + rest[0];
        assert s == [s[0]] + s[1..];
      } else {
        var p := Split(s);
        assert p[1..] == rest[1..];
        assert Join(p) == [s[0]] + rest[0] + [Sep] + Join(rest[1..]);
        assert Join(rest) == rest[0] + [Sep] + Join(rest[1..]);
        assert s == [s[0]] + s[1..];
      }
    }
  }

  /** Splitting a join of separator-free segments gives back the segments. */
  lemma {:induction false} SplitJoin(parts: seq<string>)
    requires |parts| >= 1
    requires forall i :: 0 <= i < |parts| ==> IsSegment(parts[i])
    ensures Split(Join(parts)) == parts
  {
    if |parts| == 1 {
      SplitSegment(parts[0], []);
      assert parts[0] + [] == parts[0];
      assert Split([]) == [""];
      assert parts[0] + "" == parts[0];
    } else {
      SplitJoin(parts[1..]);
      var tail := Join(parts[1..]);
      SplitSegment(parts[0], [Sep] + tail);
      assert Join(parts) == parts[0] + ([Sep] + tail);
      assert ([Sep] + tail)[0] == Sep;
      assert ([Sep] + tail)[1..] == tail;
      assert Split([Sep] + tail) == [""] + Split(tail);
      assert Split([Sep] + tail)[0] == "";
      assert Split([Sep] + tail)[1..] == parts[1..];
      assert parts[0] + "" == parts[0];
      assert parts == [parts[0]] + parts[1..];
    }
  }

  /** A separator-free prefix glues onto the first piece of what follows it. */
  lemma {:induction false} SplitSegment(seg: string, t: string)
    requires IsSegment(seg)
    ensures Split(seg + t) == [seg + Split(t)[0]] + Split(t)[1..]
  {
    if |seg| == 0 {
      assert seg + t == t;
      assert seg + Split(t)[0] == Split(t)[0];
      assert Split(t) == [Split(t)[0]] + Split(t)[1..];
    } else {
      assert (seg + t)[0] == seg[0];
      assert (seg + t)[1..] == seg[1..] + t;
      SplitSegment(seg[1..], t);
      assert [seg[0]] + (seg[1..] + Split(t)[0]) == seg + Split(t)[0];
    }
  }

  /** `parts[1] || "unknown"`: the room named by a topic. */
  function Room(topic: string): (room: string)
    ensures room != ""
    ensures IsSegment(room)
  {
    var parts := Split(topic);
    if |parts| > 1 && parts[1] != "" then parts[1] else UnknownRoom
  }

  /** On a well-formed topic `<prefix>/<room>/<rest...>` the room is the second segment. */
  lemma RoomOfTopic(parts: seq<string>)
    requires |parts| >= 2 && parts[1] != ""
    requires forall i :: 0 <= i < |parts| ==> IsSegment(parts[i])
    ensures Room(Join(parts)) == parts[1]
  {
    SplitJoin(parts);
  }

  /** A topic with no separator, or an empty second segment, names the unknown room. */
  lemma RoomFallback(topic: string)
    ensures CountSep(topic) == 0 ==> Room(topic) == UnknownRoom
    ensures |Split(topic)| > 1 && Split(topic)[1] == "" ==> Room(topic) == UnknownRoom
  {
  }
}
