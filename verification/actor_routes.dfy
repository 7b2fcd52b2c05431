// How an actor callback's path selects the app's callback: the Rust router of the HTTP inbound provider and the Go
// router of the in-process app channel, written independently, and exactly when they agree.
module ActorRoutes {
  import opened Common

  datatype Verb = Get | Head | Post | Put | Delete | Connect | Options | Trace | Patch

  datatype Callback =
    | Deactivate(actorType: string, actorId: string)
    | Timer(actorType: string, actorId: string, name: string)
    | Reminder(actorType: string, actorId: string, name: string)
    | Invoke(actorType: string, actorId: string, operation: string)

  // --- splitting at slashes ------------------------------------------------------

  /** The text before the first slash. */
  function FirstSegment(s: string): (h: string)
    ensures '/' !in h && |h| <= |s| && h == s[..|h|]
    ensures '/' in s ==> |h| < |s| && s[|h|] == '/'
    ensures '/' !in s ==> h == s
  {
    if s == "" || s[0] == '/' then "" else [s[0]] + FirstSegment(s[1..])
  }

  /** The text after the first slash. */
  function AfterFirst(s: string): (t: string)
    requires '/' in s
    ensures |t| < |s| && s == FirstSegment(s) + "/" + t
  {
    s[|FirstSegment(s)| + 1..]
  }

  function Split(s: string): (segments: seq<string>)
    ensures |segments| >= 1
    decreases |s|
  {
    if '/' in s then [FirstSegment(s)] + Split(AfterFirst(s)) else [s]
  }

  /** Like `Split`, but into at most `n` parts, the last of which is not split further. */
  function SplitN(s: string, n: nat): seq<string>
    requires n > 0
    decreases n
  {
    if n > 1 && '/' in s then [FirstSegment(s)] + SplitN(AfterFirst(s), n - 1) else [s]
  }

  function Join(segments: seq<string>): string {
    if |segments| == 0 then ""
    else if |segments| == 1 then segments[0]
    else segments[0] + "/" + Join(segments[1..])
  }

  function NonEmpty(segments: seq<string>): seq<string> {
    if segments == [] then []
    else (if segments[0] == "" then [] else [segments[0]]) + NonEmpty(segments[1..])
  }

  function Map(segments: seq<string>, decode: string -> string): (r: seq<string>)
    ensures |r| == |segments|
  {
    if segments == [] then [] else [decode(segments[0])] + Map(segments[1..], decode)
  }

  function CutPrefix(s: string, prefix: string): Option<string> {
    if prefix <= s then Some(s[|prefix|..]) else None
  }

  // --- the two routers --------------------------------------------------------------

  /** `route_actor`: drop empty segments, decode the others, and look at all of them. */
  function RustRoute(verb: Verb, rest: string, decode: string -> string): Option<Callback> {
    RustRouteSegments(verb, Map(NonEmpty(Split(rest)), decode))
  }

  function RustRouteSegments(verb: Verb, segments: seq<string>): Option<Callback> {
    if |segments| < 2 then None
    else if verb == Delete && |segments| == 2 then Some(Deactivate(segments[0], segments[1]))
    else if |segments| >= 4 && segments[2] == "method" then
      if segments[3] == "timer" && |segments| >= 5 then Some(Timer(segments[0], segments[1], segments[4]))
      else if segments[3] == "remind" && |segments| >= 5 then Some(Reminder(segments[0], segments[1], segments[4]))
      else Some(Invoke(segments[0], segments[1], Join(segments[3..])))
    else None
  }

  /** `invokeActor`: split into at most four parts and cut known prefixes off the last. */
  function GoRoute(verb: Verb, rest: string): Option<Callback> {
    GoRouteParts(verb, SplitN(rest, 4))
  }

  function GoRouteParts(verb: Verb, segments: seq<string>): Option<Callback> {
    if |segments| < 2 || segments[0] == "" || segments[1] == "" then None
    else if verb == Delete && |segments| == 2 then Some(Deactivate(segments[0], segments[1]))
    else if |segments| < 4 || segments[2] != "method" || segments[3] == "" then None
    else Some(GoOperation(segments[0], segments[1], segments[3]))
  }

  /** The part of `invokeActor` behind `method/`. */
  function GoOperation(actorType: string, actorId: string, operation: string): Callback {
    match CutPrefix(operation, "timer/")
    case Some(name) =>
      if name != "" then Timer(actorType, actorId, name) else Invoke(actorType, actorId, operation)
    case None =>
      match CutPrefix(operation, "remind/")
      case Some(name) =>
        if name != "" then Reminder(actorType, actorId, name) else Invoke(actorType, actorId, operation)
      case None => Invoke(actorType, actorId, operation)
  }

  // --- facts about splitting -------------------------------------------------------------

  lemma {:induction false} SplitJoins(s: string)
    ensures Join(Split(s)) == s
    ensures forall segment | segment in Split(s) :: '/' !in segment
    decreases |s|
  {
    if '/' in s {
      SplitJoins(AfterFirst(s));
      assert Split(s)[1..] == Split(AfterFirst(s));
    }
  }

  function Regroup(segments: seq<string>, n: nat): seq<string>
    requires n > 0
  {
    if |segments| <= n then segments else segments[..n - 1] + [Join(segments[n - 1..])]
  }

  lemma RegroupCons(first: string, more: seq<string>, n: nat)
    requires n > 1
    ensures Regroup([first] + more, n) == [first] + Regroup(more, n - 1)
  {
    var segments := [first] + more;
    if |segments| > n {
      assert segments[n - 1..] == more[n - 2..];
      assert segments[..n - 1] == [first] + more[..n - 2];
    }
  }

  /** Splitting into at most `n` parts joins what a full split has from the last part on. */
  lemma {:induction false} SplitNJoinsTheRest(s: string, n: nat)
    requires n > 0
    ensures SplitN(s, n) == Regroup(Split(s), n)
    decreases n
  {
    if n > 1 && '/' in s {
      SplitNJoinsTheRest(AfterFirst(s), n - 1);
      RegroupCons(FirstSegment(s), Split(AfterFirst(s)), n);
    } else if n == 1 {
      SplitJoins(s);
      assert Split(s)[0..] == Split(s);
      assert Regroup(Split(s), 1) == [s];
    }
  }

  /** A joined path starts with a segment and a slash exactly when that is its first segment and more follow. */
  lemma PrefixIsFirstSegment(segments: seq<string>, first: string)
    requires |segments| >= 1 && (forall segment | segment in segments :: '/' !in segment) && '/' !in first
    ensures CutPrefix(Join(segments), first + "/") ==
      if |segments| >= 2 && segments[0] == first then Some(Join(segments[1..])) else None
  {
    var s := Join(segments);
    if |segments| == 1 {
      PrefixHasSlash(s, first);
      assert segments[0] in segments;
    } else {
      HeadOfJoined(segments[0], Join(segments[1..]));
      assert s == segments[0] + "/" + Join(segments[1..]);
      if first + "/" <= s {
        HeadOfJoined(first, s[|first| + 1..]);
        assert s == first + "/" + s[|first| + 1..];
      }
    }
  }

  lemma PrefixHasSlash(s: string, first: string)
    ensures first + "/" <= s ==> '/' in s
  {
    if first + "/" <= s {
      assert s[|first|] == (first + "/")[|first|];
    }
  }

  lemma {:induction false} HeadOfJoined(head: string, rest: string)
    requires '/' !in head
    ensures var s := head + "/" + rest; '/' in s && FirstSegment(s) == head && AfterFirst(s) == rest
  {
    FirstOfJoined(head, rest);
    AfterJoined(head, rest);
  }

  lemma {:induction false} FirstOfJoined(head: string, rest: string)
    requires '/' !in head
    ensures FirstSegment(head + "/" + rest) == head
  {
    if head != "" {
      FirstOfJoined(head[1..], rest);
      assert (head + "/" + rest)[1..] == head[1..] + "/" + rest;
      assert [head[0]] + head[1..] == head;
    }
  }

  lemma AfterJoined(head: string, rest: string)
    requires FirstSegment(head + "/" + rest) == head
    ensures var s := head + "/" + rest; '/' in s && AfterFirst(s) == rest
  {
    var s := head + "/" + rest;
    assert s[|head|] == '/';
    assert s[|head| + 1..] == rest;
  }

  lemma {:induction false} NothingToFilter(segments: seq<string>)
    requires forall segment | segment in segments :: segment != ""
    ensures NonEmpty(segments) == segments
  {
    if segments != [] {
      assert segments[0] in segments;
      assert forall segment | segment in segments[1..] :: segment in segments;
      NothingToFilter(segments[1..]);
    }
  }

  lemma {:induction false} NothingToDecode(segments: seq<string>, decode: string -> string)
    requires forall segment | segment in segments :: decode(segment) == segment
    ensures Map(segments, decode) == segments
  {
    if segments != [] {
      NothingToDecode(segments[1..], decode);
    }
  }

  /** Empty segments count for nothing in the Rust router: a doubled, leading or trailing slash changes nothing. */
  lemma EmptySegmentsAreIgnored(verb: Verb, before: seq<string>, after: seq<string>, decode: string -> string)
    requires before + after != []
    requires forall segment | segment in before + after :: '/' !in segment
    ensures RustRoute(verb, Join(before + [""] + after), decode) == RustRoute(verb, Join(before + after), decode)
  {
    var longer, shorter := before + [""] + after, before + after;
    SplitJoined(longer);
    SplitJoined(shorter);
    EmptyDropsOut(before, after);
    assert NonEmpty(Split(Join(longer))) == NonEmpty(Split(Join(shorter)));
  }

  lemma EmptyDropsOut(before: seq<string>, after: seq<string>)
    ensures NonEmpty(before + [""] + after) == NonEmpty(before + after)
  {
    NonEmptyConcat(before + [""], after);
    NonEmptyConcat(before, [""]);
    NonEmptyConcat(before, after);
    NoEmptyAlone();
  }

  lemma NoEmptyAlone()
    ensures NonEmpty([""]) == []
  {
    assert [""][1..] == [];
  }

  lemma NonEmptyStep(segments: seq<string>, first: string, more: seq<string>)
    requires segments == [first] + more
    ensures NonEmpty(segments) == (if first == "" then [] else [first]) + NonEmpty(more)
  {
    assert segments[1..] == more;
  }

  lemma Associative(a: seq<string>, b: seq<string>, c: seq<string>)
    ensures (a + b) + c == a + (b + c)
  {
  }

  lemma {:induction false} NonEmptyConcat(a: seq<string>, b: seq<string>)
    ensures NonEmpty(a + b) == NonEmpty(a) + NonEmpty(b)
  {
    if a == [] {
      assert a + b == b;
    } else {
      NonEmptyConcat(a[1..], b);
      assert a + b == [a[0]] + (a[1..] + b);
      NonEmptyStep(a + b, a[0], a[1..] + b);
      assert a == [a[0]] + a[1..];
      NonEmptyStep(a, a[0], a[1..]);
      Associative(if a[0] == "" then [] else [a[0]], NonEmpty(a[1..]), NonEmpty(b));
    }
  }

  /** The Rust router decodes every segment before it looks at it: a path with these segments routes by their decodings. */
  lemma RustRouteDecodes(verb: Verb, segments: seq<string>, decode: string -> string)
    requires segments != [] && forall segment | segment in segments :: '/' !in segment && segment != ""
    ensures var d := (i: int) requires 0 <= i < |segments| => decode(segments[i]);
      RustRoute(verb, Join(segments), decode) ==
        if |segments| < 2 then None
        else if verb == Delete && |segments| == 2 then Some(Deactivate(d(0), d(1)))
        else if |segments| < 4 || d(2) != "method" then None
        else if |segments| >= 5 && d(3) == "timer" then Some(Timer(d(0), d(1), d(4)))
        else if |segments| >= 5 && d(3) == "remind" then Some(Reminder(d(0), d(1), d(4)))
        else Some(Invoke(d(0), d(1), Join(Map(segments, decode)[3..])))
  {
    SplitJoined(segments);
    NothingToFilter(segments);
    MapAt(segments, decode);
  }

  lemma {:induction false} MapAt(segments: seq<string>, decode: string -> string)
    ensures forall i | 0 <= i < |segments| :: Map(segments, decode)[i] == decode(segments[i])
  {
    if segments != [] {
      MapAt(segments[1..], decode);
    }
  }

  lemma {:induction false} JoinIsNotEmpty(segments: seq<string>)
    requires |segments| >= 1 && segments[0] != ""
    ensures Join(segments) != ""
  {
  }

  // --- agreement ----------------------------------------------------------------------------

  /** No segment is empty or changed by percent-decoding. */
  predicate PlainPath(rest: string, decode: string -> string) {
    forall segment | segment in Split(rest) :: segment != "" && decode(segment) == segment
  }

  /** A timer or reminder whose name spans several segments. */
  predicate LongName(segments: seq<string>) {
    |segments| >= 6 && segments[2] == "method" && (segments[3] == "timer" || segments[3] == "remind")
  }

  lemma GoOperationBySegments(actorType: string, actorId: string, last: seq<string>)
    requires |last| >= 1 && forall segment | segment in last :: '/' !in segment && segment != ""
    ensures GoOperation(actorType, actorId, Join(last)) == GoOperationOf(actorType, actorId, last)
  {
    PrefixIsFirstSegment(last, "timer");
    PrefixIsFirstSegment(last, "remind");
    assert "timer" + "/" == "timer/" && "remind" + "/" == "remind/";
    if |last| >= 2 {
      assert last[1..][0] in last;
      JoinIsNotEmpty(last[1..]);
    }
  }

  /** The Go router's decision in terms of the full split that the Rust router uses. */
  function GoDecision(verb: Verb, segments: seq<string>): Option<Callback> {
    if |segments| < 2 then None
    else if verb == Delete && |segments| == 2 then Some(Deactivate(segments[0], segments[1]))
    else if |segments| < 4 || segments[2] != "method" then None
    else Some(GoOperationOf(segments[0], segments[1], segments[3..]))
  }

  function GoOperationOf(actorType: string, actorId: string, last: seq<string>): Callback
    requires |last| >= 1
  {
    if |last| >= 2 && last[0] == "timer" then Timer(actorType, actorId, Join(last[1..]))
    else if |last| >= 2 && last[0] == "remind" then Reminder(actorType, actorId, Join(last[1..]))
    else Invoke(actorType, actorId, Join(last))
  }

  lemma GoRouteBySegments(verb: Verb, rest: string)
    requires forall segment | segment in Split(rest) :: segment != ""
    ensures GoRoute(verb, rest) == GoDecision(verb, Split(rest))
  {
    var segments := Split(rest);
    SplitJoins(rest);
    SplitNJoinsTheRest(rest, 4);
    if |segments| < 4 {
      FewPartsDecide(verb, segments);
    } else {
      var last := segments[3..];
      if |segments| == 4 {
        assert segments == segments[..3] + [segments[3]] && last == [segments[3]];
      }
      FourPartsDecide(verb, segments);
    }
  }

  /** What the Go router chooses for every path with a type, an id and the marker of a method, also an empty one. */
  lemma GoMethodPaths(verb: Verb, actorType: string, actorId: string, operation: string)
    requires '/' !in actorType && '/' !in actorId
    ensures var rest := actorType + "/" + (actorId + "/" + ("method" + "/" + operation));
      GoRoute(verb, rest) ==
        if actorType == "" || actorId == "" || operation == "" then None
        else if "timer/" <= operation && operation != "timer/" then Some(Timer(actorType, actorId, operation[6..]))
        else if "remind/" <= operation && operation != "remind/" then
          Some(Reminder(actorType, actorId, operation[7..]))
        else Some(Invoke(actorType, actorId, operation))
  {
    FourParts(actorType, actorId, "method", operation);
    DecisionOnMethod(verb, actorType, actorId, operation);
    GoOperationIs(actorType, actorId, operation);
  }

  lemma DecisionOnMethod(verb: Verb, actorType: string, actorId: string, operation: string)
    ensures GoRouteParts(verb, [actorType, actorId, "method", operation]) ==
      if actorType == "" || actorId == "" || operation == "" then None
      else Some(GoOperation(actorType, actorId, operation))
  {
  }

  lemma FourParts(first: string, second: string, third: string, last: string)
    requires '/' !in first && '/' !in second && '/' !in third
    ensures SplitN(first + "/" + (second + "/" + (third + "/" + last)), 4) == [first, second, third, last]
  {
    SplitNStep(first, second + "/" + (third + "/" + last), 4);
    ThreeParts(second, third, last);
  }

  lemma ThreeParts(second: string, third: string, last: string)
    requires '/' !in second && '/' !in third
    ensures SplitN(second + "/" + (third + "/" + last), 3) == [second, third, last]
  {
    SplitNStep(second, third + "/" + last, 3);
    SplitNStep(third, last, 2);
    assert SplitN(last, 1) == [last];
  }

  lemma SplitNStep(head: string, rest: string, n: nat)
    requires '/' !in head && n > 1
    ensures SplitN(head + "/" + rest, n) == [head] + SplitN(rest, n - 1)
  {
    HeadOfJoined(head, rest);
  }

  lemma GoOperationIs(actorType: string, actorId: string, operation: string)
    ensures GoOperation(actorType, actorId, operation) ==
      if "timer/" <= operation && operation != "timer/" then Timer(actorType, actorId, operation[6..])
      else if "remind/" <= operation && operation != "remind/" then Reminder(actorType, actorId, operation[7..])
      else Invoke(actorType, actorId, operation)
  {
    if "timer/" <= operation {
      assert operation == "timer/" + operation[6..];
    }
    if "remind/" <= operation {
      assert operation == "remind/" + operation[7..];
    }
    assert "timer/"[0] != "remind/"[0];
  }

  /** What it chooses for the other paths: a deletion of two non-empty segments, and nothing else. */
  lemma GoOtherPaths(verb: Verb, rest: string)
    ensures var parts := SplitN(rest, 4);
      GoRoute(verb, rest).Some? ==>
        && |parts| >= 2 && parts[0] != "" && parts[1] != ""
        && ((|parts| == 2 && verb == Delete) || (|parts| == 4 && parts[2] == "method" && parts[3] != ""))
    ensures var parts := SplitN(rest, 4);
      |parts| == 2 && verb == Delete && parts[0] != "" && parts[1] != "" ==>
        GoRoute(verb, rest) == Some(Deactivate(parts[0], parts[1]))
  {
    AtMost(rest, 4);
  }

  lemma {:induction false} AtMost(s: string, n: nat)
    requires n > 0
    ensures 1 <= |SplitN(s, n)| <= n
    decreases n
  {
    if n > 1 && '/' in s {
      AtMost(AfterFirst(s), n - 1);
    }
  }

  lemma FewPartsDecide(verb: Verb, segments: seq<string>)
    requires |segments| < 4 && forall segment | segment in segments :: segment != ""
    ensures GoRouteParts(verb, segments) == GoDecision(verb, segments)
  {
    if |segments| >= 2 {
      assert segments[0] in segments && segments[1] in segments;
    }
  }

  lemma FourPartsDecide(verb: Verb, segments: seq<string>)
    requires |segments| >= 4 && forall segment | segment in segments :: segment != "" && '/' !in segment
    ensures GoRouteParts(verb, segments[..3] + [Join(segments[3..])]) == GoDecision(verb, segments)
  {
    var last := segments[3..];
    assert segments[0] in segments && segments[1] in segments && segments[3] in segments;
    forall segment | segment in last
      ensures segment != "" && '/' !in segment
    {
      assert segment in segments;
    }
    assert last[0] == segments[3];
    JoinIsNotEmpty(last);
    GoOperationBySegments(segments[0], segments[1], last);
  }

  lemma {:induction false} LongerJoinDiffers(segments: seq<string>)
    requires |segments| >= 2
    ensures Join(segments) != segments[0]
  {
    assert |Join(segments)| > |segments[0]|;
  }

  lemma DecisionsAgree(verb: Verb, segments: seq<string>)
    ensures RustRouteSegments(verb, segments) == GoDecision(verb, segments) <==> !LongName(segments)
  {
    if |segments| >= 5 {
      var last := segments[3..];
      var name := last[1..];
      assert last[0] == segments[3] && name[0] == segments[4];
      if |segments| == 5 {
        assert Join(name) == segments[4];
      } else {
        LongerJoinDiffers(name);
      }
    }
  }

  /** On plain paths the two routers choose the same callback with the same arguments, or both decline, for every
      verb, exactly unless a timer or reminder name spans several segments. */
  lemma RoutersAgree(verb: Verb, rest: string, decode: string -> string)
    requires PlainPath(rest, decode)
    ensures RustRoute(verb, rest, decode) == GoRoute(verb, rest) <==> !LongName(Split(rest))
  {
    var segments := Split(rest);
    NothingToFilter(segments);
    NothingToDecode(segments, decode);
    GoRouteBySegments(verb, rest);
    DecisionsAgree(verb, segments);
  }

  /** Of a timer or reminder name with several segments the Rust router keeps the first and the Go router all. */
  lemma LongNamesDisagree(verb: Verb, rest: string, decode: string -> string)
    requires PlainPath(rest, decode) && LongName(Split(rest))
    ensures var s := Split(rest);
      var build := (name: string) =>
        if s[3] == "timer" then Some(Timer(s[0], s[1], name)) else Some(Reminder(s[0], s[1], name));
      RustRoute(verb, rest, decode) == build(s[4]) && GoRoute(verb, rest) == build(Join(s[4..]))
  {
    var segments := Split(rest);
    NothingToFilter(segments);
    NothingToDecode(segments, decode);
    GoRouteBySegments(verb, rest);
    assert segments[3..][1..] == segments[4..];
  }

  /** Every list of plain segments that names a long timer or reminder is the split of a plain path, so such paths
      exist: t/i/method/timer/a/b is one. */
  lemma LongNamesExist(segments: seq<string>, decode: string -> string)
    requires LongName(segments)
    requires forall segment | segment in segments :: segment != "" && '/' !in segment && decode(segment) == segment
    ensures exists rest :: PlainPath(rest, decode) && Split(rest) == segments
  {
    SplitJoined(segments);
    assert PlainPath(Join(segments), decode);
  }

  lemma {:induction false} SplitJoined(segments: seq<string>)
    requires segments != [] && forall segment | segment in segments :: '/' !in segment
    ensures Split(Join(segments)) == segments
  {
    if |segments| > 1 {
      SplitJoined(segments[1..]);
      HeadOfJoined(segments[0], Join(segments[1..]));
    }
  }

  /** The segments of t/i/method/timer/a/b, whose path the two routers treat differently. */
  lemma LongNameExample(decode: string -> string)
    requires forall segment | segment in ["t", "i", "method", "timer", "a", "b"] :: decode(segment) == segment
    ensures exists rest ::
      && Split(rest) == ["t", "i", "method", "timer", "a", "b"]
      && RustRoute(Post, rest, decode) != GoRoute(Post, rest)
  {
    var segments := ["t", "i", "method", "timer", "a", "b"];
    LongNamesExist(segments, decode);
    var rest :| PlainPath(rest, decode) && Split(rest) == segments;
    RoutersAgree(Post, rest, decode);
  }
}
