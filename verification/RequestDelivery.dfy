/** A whole request: joined by the client, sent in arbitrary chunks, answered by the server. */
module RequestDelivery {
  import opened Common
  import opened CStrings
  import opened ControlProto
  import opened LineReader

  /** The client's line buffer; one byte of it is kept for the newline. */
  const CLIENT_LINE_MAX: nat := 8192

  /** The arguments as the server's line keeps them: a final CR is taken for line-end decoration. */
  function WithoutFinalCr(args: seq<string>): seq<string> {
    if args != [] && EndsInCr(args[|args| - 1]) then
      var last := args[|args| - 1];
      args[..|args| - 1] + [last[..|last| - 1]]
    else args
  }

  /** What one request line makes the server do. */
  function Outcome(args: seq<string>): seq<Reply> {
    var kept := NonEmpty(WithoutFinalCr(args));
    if |Joined(args)| >= LINE_MAX then [RefuseLine]
    else if |kept| > MAX_ARGV then [TooManyArguments]
    else if kept == [] then []
    else [Dispatch(kept)]
  }

  /** A caller can check all of this before sending. */
  predicate Deliverable(args: seq<string>) {
    && 1 <= |args| <= 16
    && (forall k :: 0 <= k < |args| ==> args[k] != "")
    && !EndsInCr(args[|args| - 1])
    && |Joined(args)| <= 4095
  }

  ghost predicate CStringList(args: seq<string>) {
    forall k :: 0 <= k < |args| ==> NulFree(args[k])
  }

  // ---- The final carriage return ----

  lemma {:induction false} EscapeLast(token: string, c: char, j: nat)
    requires j <= |token|
    ensures EscapeFrom(token + [c], j) == EscapeFrom(token, j) + EscapeChar(c)
    decreases |token| - j
  {
    var all := token + [c];
    if j == |token| {
      assert EscapeFrom(all, j + 1) == "";
      assert EscapeChar(c) + "" == EscapeChar(c) == "" + EscapeChar(c);
    } else {
      EscapeLast(token, c, j + 1);
      Associative(EscapeChar(token[j]), EscapeFrom(token, j + 1), EscapeChar(c));
    }
  }

  /** What stands before the last argument of a line. */
  function Lead(args: seq<string>, i: nat): string
    requires i <= |args|
    decreases |args| - i
  {
    if i == |args| then (if i > 0 then " " else "")
    else (if i > 0 then " " else "") + (EscapeFrom(args[i], 0) + Lead(args, i + 1))
  }

  lemma {:induction false} JoinLast(args: seq<string>, x: string, i: nat)
    requires i <= |args|
    ensures JoinFrom(args + [x], i) == Lead(args, i) + EscapeFrom(x, 0)
    decreases |args| - i
  {
    var sep := if i > 0 then " " else "";
    if i == |args| {
      assert JoinFrom(args + [x], i + 1) == "";
      assert EscapeFrom(x, 0) + "" == EscapeFrom(x, 0);
    } else {
      JoinLast(args, x, i + 1);
      var esc, lead := EscapeFrom(args[i], 0), Lead(args, i + 1);
      Associative(esc, lead, EscapeFrom(x, 0));
      Associative(sep, esc + lead, EscapeFrom(x, 0));
    }
  }

  lemma EscapeEnd(token: string)
    requires token != ""
    ensures EscapeFrom(token, 0) != ""
    ensures EscapeFrom(token, 0)[|EscapeFrom(token, 0)| - 1] == '\r' <==> EndsInCr(token)
    ensures EndsInCr(token) ==> EscapeFrom(token, 0) == EscapeFrom(token[..|token| - 1], 0) + "\r"
  {
    var c := token[|token| - 1];
    assert token == token[..|token| - 1] + [c];
    EscapeLast(token[..|token| - 1], c, 0);
  }

  lemma LastOf(a: string, b: string, c: string)
    requires c != ""
    ensures var s := a + (b + c); s != "" && s[|s| - 1] == c[|c| - 1]
  {
  }

  lemma {:induction false} LeadEnd(args: seq<string>, i: nat)
    requires i <= |args|
    ensures if args == [] then Lead(args, i) == ""
            else Lead(args, i) != "" && Lead(args, i)[|Lead(args, i)| - 1] == ' '
    decreases |args| - i
  {
    if i < |args| {
      LeadEnd(args, i + 1);
      LastOf(if i > 0 then " " else "", EscapeFrom(args[i], 0), Lead(args, i + 1));
    }
  }

  lemma StripAfter(text: string)
    ensures StripCr(text + "\r") == text
  {
    assert (text + "\r")[..|text|] == text;
  }

  lemma EndOfConcat(a: string, b: string)
    requires b != ""
    ensures EndsInCr(a + b) <==> EndsInCr(b)
  {
  }

  /** A CR at the end of a line is the last byte of its last argument. */
  lemma StripLast(lead: string, last: string)
    requires lead == "" || lead[|lead| - 1] == ' '
    ensures StripCr(lead + EscapeFrom(last, 0))
            == lead + EscapeFrom(if EndsInCr(last) then last[..|last| - 1] else last, 0)
  {
    var line := lead + EscapeFrom(last, 0);
    if last == "" {
      assert line == lead;
    } else {
      EscapeEnd(last);
      if EndsInCr(last) {
        var esc := EscapeFrom(last[..|last| - 1], 0);
        Associative(lead, esc, "\r");
        StripAfter(lead + esc);
      } else {
        EndOfConcat(lead, EscapeFrom(last, 0));
      }
    }
  }

  /** Stripping a CR off the line is stripping it off the last argument. */
  lemma StripJoined(args: seq<string>)
    ensures StripCr(Joined(args)) == Joined(WithoutFinalCr(args))
  {
    if args != [] {
      var front, last := args[..|args| - 1], args[|args| - 1];
      assert args == front + [last];
      LeadEnd(front, 0);
      StripLast(Lead(front, 0), last);
      JoinLast(front, last, 0);
      JoinLast(front, if EndsInCr(last) then last[..|last| - 1] else last, 0);
    }
  }

  // ---- End to end ----

  lemma LineAnswered(args: seq<string>)
    requires CStringList(args) && |Joined(args)| < LINE_MAX
    ensures LineResponse(Joined(args)) == Outcome(args)
  {
    JoinClean(args, 0);
    StripJoined(args);
    var line := StripCr(Joined(args));
    assert line <= Joined(args);
    assert UpToNul(line) == line;
    SplitOfJoin(WithoutFinalCr(args));
  }

  lemma OneLineStream(s: string, n: nat)
    requires n + 1 == |s| < 2 * LINE_MAX && NewlineAt(s, 0) == n
    ensures StreamEvents(s, 0) == [if n < LINE_MAX then Handed(s[0..n]) else LineTooLong]
    ensures Responses(StreamEvents(s, 0)) == if n < LINE_MAX then LineResponse(s[0..n]) else [RefuseLine]
  {
    var e := if n < LINE_MAX then Handed(s[0..n]) else LineTooLong;
    assert StreamEvents(s, |s|) == Rejections(0) == [];
    assert Rejections(1) == [LineTooLong];
    ResponsesPush([], e);
    assert [] + [e] == [e];
    assert Responses([]) + Response(e) == Response(e);
  }

  /** Any request line the client can send is answered by exactly `Outcome`, once. */
  lemma StreamOfRequest(args: seq<string>)
    requires CStringList(args) && |Joined(args)| < CLIENT_LINE_MAX - 1
    ensures Responses(StreamEvents(Joined(args) + "\n", 0)) == Outcome(args)
    ensures Run(FRESH, Joined(args) + "\n", 0).0 == FRESH
  {
    var line := Joined(args);
    var s := line + "\n";
    JoinClean(args, 0);
    NewlineFound(s, 0, |line|);
    FromLineStart(s, 0, |line|);
    EndOfLine(s, 0, |line|);
    assert s[0..|line|] == line;
    OneLineStream(s, |line|);
    if |line| < LINE_MAX {
      LineAnswered(args);
    }
  }

  /**
   * A request reaches the dispatcher as the very list that was sent exactly when it has
   * 1 to 16 arguments, none empty, the last not ending in CR, on a line of at most 4095 bytes.
   */
  lemma DeliveredExactlyWhen(args: seq<string>)
    ensures Outcome(args) == [Dispatch(args)] <==> Deliverable(args)
  {
    var kept := WithoutFinalCr(args);
    NonEmptyIsAll(kept, 0);
    NonEmptyIsAll(args, 0);
    assert kept[0..] == kept && args[0..] == args;
    if Outcome(args) == [Dispatch(args)] {
      assert Outcome(args)[0] == Dispatch(args);
      assert NonEmpty(kept) == args == kept;
      assert forall k :: 0 <= k < |args| ==> args[k] == NonEmpty(kept)[k];
      assert kept[|args| - 1] == args[|args| - 1];
    }
  }

  /** A list that passes every test but the last: the server dispatches something else. */
  lemma FinalCrLost()
    ensures Outcome(["a\r"]) == [Dispatch(["a"])] != [Dispatch(["a\r"])]
  {
    var sent, kept := ["a\r"], ["a"];
    assert sent[..0] + ["a"] == kept && "a\r"[..1] == "a";
    assert WithoutFinalCr(sent) == kept;
    NonEmptyIsAll(kept, 0);
    assert kept[0..] == kept;
    JoinLast([], "a\r", 0);
    assert [] + ["a\r"] == sent && Joined(sent) == Lead([], 0) + EscapeFrom("a\r", 0);
    assert EscapeFrom("a\r", 2) == "" && |EscapeFrom("a\r", 1)| <= 2;
  }

  /** The client's half and the server's half of one request, on a connection at rest. */
  method Deliver(args: seq<string>, server: Client) returns (sent: bool, replies: seq<Reply>)
    requires CStringList(args) && server.Valid() && server.State() == FRESH
    modifies server, server.inbuf
    ensures server.Valid() && server.State() == FRESH
    ensures sent <==> |Joined(args)| <= 8190
    ensures sent ==> replies == Outcome(args)
  {
    var line := new char[CLIENT_LINE_MAX];
    var n := Join(line, line.Length - 1, args);
    if n < 0 {
      return false, [];
    }
    line[n] := '\n';
    ghost var wire := line[..n + 1];
    assert wire == Joined(args) + "\n";
    StreamOfRequest(args);
    RunIsStream(wire, 0);
    sent := true;
    replies := server.HandleReadable(line[..n + 1]);
  }
}
