/** The builder of the HTTP error responses of the REST interface: it
    collects error messages and renders them into the body of a JSON
    response. The body is written by hand: its opening is `{"errors:"[`,
    the messages are quoted with no separator between them, and nothing is
    escaped. */
module JsonResponse {
  import opened Wrappers

  /** The parts of the response the builder sets: its status code, its
      headers, its media type and its body. */
  datatype Response = Response(status: int, headers: seq<(string, string)>, mediaType: string, entity: string)

  const CORS_HEADER: (string, string) := ("Access-Control-Allow-Origin", "*")
  const APPLICATION_JSON: string := "application/json"

  /** The fixed text before and after the messages. */
  const OPENING: string := "{\"errors:\"["
  const CLOSING: string := "]}"

  // ---------------------------------------------------------------------
  // The body
  // ---------------------------------------------------------------------

  /** The messages, each between double quotes, one after the other. */
  function Quoted(ms: seq<string>): string {
    if ms == [] then ""
    else Quoted(ms[..|ms| - 1]) + "\"" + ms[|ms| - 1] + "\""
  }

  /** The body of the response for a list of messages. */
  function ErrorBody(ms: seq<string>): string {
    OPENING + Quoted(ms) + CLOSING
  }

  /** The length of the messages, each with its two quotes. */
  function QuotedLength(ms: seq<string>): nat {
    if ms == [] then 0 else QuotedLength(ms[..|ms| - 1]) + |ms[|ms| - 1]| + 2
  }

  lemma {:induction false} QuotedAppend(xs: seq<string>, ys: seq<string>)
    ensures Quoted(xs + ys) == Quoted(xs) + Quoted(ys)
  {
    if ys == [] {
      assert xs + ys == xs;
    } else {
      var init := ys[..|ys| - 1];
      assert (xs + ys)[..|xs + ys| - 1] == xs + init;
      QuotedAppend(xs, init);
    }
  }

  lemma {:induction false} QuotedLengthIs(ms: seq<string>)
    ensures |Quoted(ms)| == QuotedLength(ms)
  {
    if ms != [] {
      QuotedLengthIs(ms[..|ms| - 1]);
    }
  }

  /** The body is 13 characters of fixed text plus each message with its two
      quotes. */
  lemma ErrorBodyLength(ms: seq<string>)
    ensures |ErrorBody(ms)| == 13 + QuotedLength(ms)
  {
    QuotedLengthIs(ms);
  }

  /** Without messages the body is the fixed text alone. */
  lemma EmptyErrorBody()
    ensures ErrorBody([]) == "{\"errors:\"[]}"
  {
  }

  /** Since nothing is escaped, two different lists can give the same body:
      the messages `a` and `b` read like the single message `a""b`. */
  lemma AmbiguousErrorBody()
    ensures ["a", "b"] != ["a\"\"b"]
    ensures ErrorBody(["a", "b"]) == ErrorBody(["a\"\"b"])
  {
    assert ["a", "b"][..1] == ["a"];
    assert ["a"][..0] == [];
    assert ["a\"\"b"][..0] == [];
  }

  /** Adding messages adds their quoted text just before the closing. */
  lemma ErrorBodyAppend(ms: seq<string>, more: seq<string>)
    ensures ErrorBody(ms + more) == OPENING + Quoted(ms) + Quoted(more) + CLOSING
  {
    QuotedAppend(ms, more);
  }

  // ---------------------------------------------------------------------
  // Reading a body back
  // ---------------------------------------------------------------------

  /** The index of the first double quote of `s`, or |s| when there is none. */
  function QuoteIndex(s: string): (i: nat)
    ensures i <= |s|
    ensures i < |s| ==> s[i] == '"'
    ensures forall k :: 0 <= k < i ==> s[k] != '"'
  {
    if s == [] then 0
    else if s[0] == '"' then 0
    else 1 + QuoteIndex(s[1..])
  }

  /** Reads a sequence of quoted messages; None when `s` is not one. */
  function Unquote(s: string): Option<seq<string>>
    decreases |s|
  {
    if s == [] then Some([])
    else if s[0] != '"' then None
    else
      var body := s[1..];
      var k := QuoteIndex(body);
      if k == |body| then None
      else
        match Unquote(body[k + 1..])
        case None => None
        case Some(rest) => Some([body[..k]] + rest)
  }

  /** Reads the messages back from a body; None when `s` is not one. */
  function ParseErrorBody(s: string): Option<seq<string>> {
    if |s| >= |OPENING| + |CLOSING| && s[..|OPENING|] == OPENING && s[|s| - |CLOSING|..] == CLOSING
    then Unquote(s[|OPENING|..|s| - |CLOSING|])
    else None
  }

  predicate NoQuotes(ms: seq<string>) {
    forall i :: 0 <= i < |ms| ==> '"' !in ms[i]
  }

  lemma QuoteIndexAfter(m: string, rest: string)
    requires '"' !in m
    ensures QuoteIndex(m + "\"" + rest) == |m|
  {
    var s := m + "\"" + rest;
    assert s[|m|] == '"';
    assert forall k :: 0 <= k < |m| ==> s[k] == m[k];
  }

  lemma {:induction false} UnquoteQuoted(ms: seq<string>)
    requires NoQuotes(ms)
    ensures Unquote(Quoted(ms)) == Some(ms)
    decreases |ms|
  {
    if ms != [] {
      var m, rest := ms[0], ms[1..];
      assert ms == [m] + rest;
      QuotedAppend([m], rest);
      assert [m][..0] == [];
      var s := "\"" + m + "\"" + Quoted(rest);
      assert Quoted(ms) == s;
      var body := s[1..];
      assert body == m + "\"" + Quoted(rest);
      QuoteIndexAfter(m, Quoted(rest));
      assert body[..|m|] == m;
      assert body[|m| + 1..] == Quoted(rest);
      UnquoteQuoted(rest);
    }
  }

  /** When no message holds a double quote, the messages can be read back
      from the body. */
  lemma ParseBuiltBody(ms: seq<string>)
    requires NoQuotes(ms)
    ensures ParseErrorBody(ErrorBody(ms)) == Some(ms)
  {
    var s := ErrorBody(ms);
    assert s[..|OPENING|] == OPENING;
    assert s[|s| - |CLOSING|..] == CLOSING;
    assert s[|OPENING|..|s| - |CLOSING|] == Quoted(ms);
    UnquoteQuoted(ms);
  }

  // ---------------------------------------------------------------------
  // The builder
  // ---------------------------------------------------------------------

  class JsonResponseBuilder {
    var errorMessages: seq<string>
    var status: int

    constructor (status: int)
      ensures this.status == status && errorMessages == []
    {
      this.status := status;
      errorMessages := [];
    }

    /** Appends the messages, in their order, after those already there. */
    method AddErrors(messages: seq<string>) returns (b: JsonResponseBuilder)
      modifies this`errorMessages
      ensures errorMessages == old(errorMessages) + messages
      ensures b == this
    {
      errorMessages := errorMessages + messages;
      return this;
    }

    /** Appends one message after those already there. */
    method AddError(message: string) returns (b: JsonResponseBuilder)
      modifies this`errorMessages
      ensures errorMessages == old(errorMessages) + [message]
      ensures b == this
    {
      errorMessages := errorMessages + [message];
      return this;
    }

    /** The response: the recorded status, the CORS header, the JSON media
        type and the body of the messages. The builder is left as it was. */
    method Build() returns (r: Response)
      ensures r == Response(status, [CORS_HEADER], APPLICATION_JSON, ErrorBody(errorMessages))
    {
      var sb := OPENING;
      for i := 0 to |errorMessages|
        invariant sb == OPENING + Quoted(errorMessages[..i])
      {
        assert errorMessages[..i + 1][..i] == errorMessages[..i];
        sb := sb + "\"";
        sb := sb + errorMessages[i];
        sb := sb + "\"";
      }
      assert errorMessages[..|errorMessages|] == errorMessages;
      sb := sb + CLOSING;
      return Response(status, [CORS_HEADER], APPLICATION_JSON, sb);
    }
  }
}
