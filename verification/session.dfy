/** The submit/clear state machine of `src/App.js`: the component state
    `(prompt, response, loading)`, the events that change it, and what the response
    area shows. The network request is split into its start (part of `Submit`) and
    its completion (`Succeed` or `Fail`), which arrive as separate events; the
    reply body, with its serialisation, is an input of `Succeed`. */
module Session {
  import opened JsText
  import opened Markdown

  /** A property of a JavaScript object as the program reads it: absent, a string,
      or another value with its truthiness and its conversion to a string. */
  datatype Field =
    | Missing
    | Str(s: string)
    | NonStr(truthy: bool, shown: string)
  {
    /** JavaScript truthiness: `undefined`, `""` and the falsy non-strings are false. */
    predicate Truthy() {
      match this
      case Missing => false
      case Str(s) => s != ""
      case NonStr(truthy, _) => truthy
    }

    /** String concatenation's conversion `'' + value` of a truthy value. */
    function Shown(): string
      requires Truthy()
    {
      match this
      case Str(s) => s
      case NonStr(_, shown) => shown
    }
  }

  /** The value held in `response`: a string, or a truthy non-string taken from
      the reply's `message`. */
  datatype Reply =
    | Text(s: string)
    | Opaque(shown: string)
  {
    predicate Truthy() {
      match this
      case Text(s) => s != ""
      case Opaque(_) => true
    }
  }

  /** The body `result.data` of a successful reply: `null` or `undefined`, whose
      `.message` throws a `TypeError` with the engine's text `thrown`, or a value
      with its `message` property and its serialisation
      `JSON.stringify(result.data, null, 2)`. */
  datatype Body =
    | Nullish(thrown: string)
    | Data(message: Field, serialised: string)

  datatype State = State(prompt: string, response: Reply, loading: bool)

  /** The initial state: `useState('')`, `useState('')`, `useState(false)`. */
  const Init: State := State("", Text(""), false)

  /** A state together with the request it started, if any: `Some(p)` is a POST
      whose `prompt` field is `p`. */
  datatype Outcome = Outcome(state: State, request: Option<string>)

  // ---------------------------------------------------------------------------
  // Handlers

  /** `handleSubmit` up to the request: a blank prompt only raises a toast; otherwise
      the spinner starts, the old response is cleared and the prompt is sent. */
  function Submit(st: State): (o: Outcome)
    ensures IsBlank(st.prompt) ==> o == Outcome(st, None)
    ensures !IsBlank(st.prompt) ==>
      o.request == Some(st.prompt) && o.state.loading && o.state.response == Text("")
      && o.state.prompt == st.prompt
  {
    if Trim(st.prompt) == "" then Outcome(st, None)
    else Outcome(State(st.prompt, Text(""), true), Some(st.prompt))
  }

  /** The value stored after a reply with a body: `message`, or the serialised
      body when `message` is falsy; a string has its escaped newlines turned into
      real ones. */
  function Extract(message: Field, serialised: string): (r: Reply)
    ensures message.Truthy() && message.Str? ==> r == Text(Unescape(message.s))
    ensures message.Truthy() && message.NonStr? ==> r == Opaque(message.shown)
    ensures !message.Truthy() ==> r == Text(Unescape(serialised))
  {
    var processed :=
      if message.Truthy() then (if message.Str? then Text(message.s) else Opaque(message.Shown()))
      else Text(serialised);
    if processed.Text? then Text(Unescape(processed.s)) else processed
  }

  /** The `try` branch after the reply and the `finally` branch. Reading `message`
      of a nullish body throws inside the `try`, so that reply ends in the `catch`
      branch, where the thrown error has no `response` and its own message is shown. */
  function Succeed(st: State, body: Body): (r: State)
    ensures r.prompt == st.prompt && !r.loading
    ensures body.Data? ==> r.response == Extract(body.message, body.serialised)
    ensures body.Nullish? ==> r == Fail(st, Missing, body.thrown)
  {
    match body
    case Nullish(thrown) => Fail(st, Missing, thrown)
    case Data(message, serialised) => State(st.prompt, Extract(message, serialised), false)
  }

  /** The text shown for a failed request: the server's `message` when truthy,
      else the error's own message. */
  function ErrorText(serverMessage: Field, errorMessage: string): (t: string)
    ensures StartsWith(t, "Error: ")
    ensures serverMessage.Truthy() ==> t[7..] == serverMessage.Shown()
    ensures !serverMessage.Truthy() ==> t[7..] == errorMessage
  {
    "Error: " + (if serverMessage.Truthy() then serverMessage.Shown() else errorMessage)
  }

  /** The `catch` branch and the `finally` branch. */
  function Fail(st: State, serverMessage: Field, errorMessage: string): (r: State)
    ensures r.prompt == st.prompt && !r.loading
    ensures r.response == Text(ErrorText(serverMessage, errorMessage))
  {
    State(st.prompt, Text(ErrorText(serverMessage, errorMessage)), false)
  }

  /** `handleClear`: prompt and response are emptied; a pending request keeps
      running. */
  function Clear(st: State): (r: State)
    ensures r.prompt == "" && r.response == Text("") && r.loading == st.loading
  {
    State("", Text(""), st.loading)
  }

  // ---------------------------------------------------------------------------
  // Events as the page delivers them

  datatype Event =
    | Edit(text: string)
    | Press
    | Succeeded(body: Body)
    | Failed(serverMessage: Field, errorMessage: string)
    | Cleared

  /** One event. The textarea and the submit button are disabled while loading, so
      edits and presses are then ignored; `loading` is true exactly while a request
      is in flight, so a completion only arrives while loading. The clear button is
      never disabled. */
  function Step(st: State, ev: Event): (o: Outcome)
    ensures o.request.Some? ==> !st.loading && o.state.loading
    ensures !st.loading && (ev.Succeeded? || ev.Failed?) ==> o == Outcome(st, None)
  {
    match ev
    case Edit(text) => Outcome(if st.loading then st else st.(prompt := text), None)
    case Press => if st.loading then Outcome(st, None) else Submit(st)
    case Succeeded(body) =>
      Outcome(if st.loading then Succeed(st, body) else st, None)
    case Failed(serverMessage, errorMessage) =>
      Outcome(if st.loading then Fail(st, serverMessage, errorMessage) else st, None)
    case Cleared => Outcome(Clear(st), None)
  }

  /** The states and requests of a run of events. */
  function Run(st: State, events: seq<Event>): (o: Outcome)
    decreases |events|
  {
    if events == [] then Outcome(st, None)
    else
      var first := Step(st, events[0]);
      var rest := Run(first.state, events[1..]);
      Outcome(rest.state, if rest.request.Some? then rest.request else first.request)
  }

  // ---------------------------------------------------------------------------
  // Properties

  /** While a request is in flight the response area holds no stale text. */
  predicate Inv(st: State) {
    st.loading ==> st.response == Text("")
  }

  lemma InitInv()
    ensures Inv(Init) && !Init.loading
  {
  }

  /** Every event keeps the invariant. */
  lemma StepKeepsInv(st: State, ev: Event)
    requires Inv(st)
    ensures Inv(Step(st, ev).state)
  {
  }

  /** Every run of events from a state with the invariant keeps it. */
  lemma {:induction false} RunKeepsInv(st: State, events: seq<Event>)
    requires Inv(st)
    ensures Inv(Run(st, events).state)
    decreases |events|
  {
    if events != [] {
      StepKeepsInv(st, events[0]);
      RunKeepsInv(Step(st, events[0]).state, events[1..]);
    }
  }

  /** A blank prompt (empty or white space only) changes nothing and sends nothing. */
  lemma BlankPressIsIgnored(st: State)
    requires IsBlank(st.prompt)
    ensures Step(st, Press) == Outcome(st, None)
  {
  }

  /** A non-blank prompt, when idle, starts exactly one request carrying the prompt. */
  lemma PressSends(st: State)
    requires !st.loading && !IsBlank(st.prompt)
    ensures Step(st, Press) == Outcome(State(st.prompt, Text(""), true), Some(st.prompt))
  {
  }

  /** No event sends a second request while one is in flight. */
  lemma OneRequestAtATime(st: State, ev: Event)
    requires st.loading
    ensures Step(st, ev).request == None
    ensures ev.Cleared? || ev.Edit? || ev.Press? ==> Step(st, ev).state.loading
  {
  }

  /** Both completions end the spinner and keep the prompt. */
  lemma CompletionEndsLoading(st: State, ev: Event)
    requires st.loading && (ev.Succeeded? || ev.Failed?)
    ensures !Step(st, ev).state.loading
    ensures Step(st, ev).state.prompt == st.prompt
  {
  }

  /** A string stored after a successful reply holds no escaped newline. */
  lemma StoredTextHasNoEscape(message: Field, serialised: string)
    ensures Extract(message, serialised).Text? ==>
      !Contains(Extract(message, serialised).s, EscapedNewline)
  {
    if message.Truthy() && message.Str? {
      UnescapeLeavesNoPair(message.s);
    } else if !message.Truthy() {
      UnescapeLeavesNoPair(serialised);
    }
  }

  /** A falsy `message`, including the empty string, falls back to the body. */
  lemma FalsyMessageFallsBack(serialised: string)
    ensures Extract(Str(""), serialised) == Extract(Missing, serialised)
    ensures Extract(Missing, serialised) == Text(Unescape(serialised))
  {
  }

  /** A reply without a body is reported like a failed request: the error's own
      message after `Error: `, and the spinner stops. */
  lemma NullishBodyIsAnError(st: State, thrown: string)
    requires st.loading
    ensures Step(st, Succeeded(Nullish(thrown))).state == State(st.prompt, Text("Error: " + thrown), false)
    ensures Step(st, Succeeded(Nullish(thrown))).request == None
  {
  }

  /** Clearing empties the prompt and the response and does not touch `loading`;
      after it a press sends nothing, and an idle page hides the response area. */
  lemma ClearResets(st: State)
    ensures Step(st, Cleared).state.prompt == "" && Step(st, Cleared).state.response == Text("")
    ensures Step(st, Cleared).state.loading == st.loading
    ensures Step(Step(st, Cleared).state, Press).request == None
    ensures !st.loading ==> DisplayAsWritten(Step(st, Cleared).state) == Hidden
  {
  }

  // ---------------------------------------------------------------------------
  // What the response area shows

  datatype View =
    | Hidden
    | Spinner
    | Shown(markdown: string)
    | TypeError

  /** The response section as written: hidden unless loading or the response is
      truthy; the spinner while loading; otherwise `convertToMarkdown(response)`,
      which calls `.replace` on its argument and so throws for a non-string. */
  function DisplayAsWritten(st: State): (v: View)
    ensures v == Hidden <==> !st.loading && !st.response.Truthy()
    ensures v == Spinner <==> st.loading
    ensures !st.loading && st.response.Text? && st.response.Truthy() ==> v == Shown(ConvertToMarkdown(st.response.s))
    ensures !st.loading && st.response.Opaque? ==> v == TypeError
  {
    if !(st.loading || st.response.Truthy()) then Hidden
    else if st.loading then Spinner
    else match st.response
      case Text(s) => Shown(ConvertToMarkdown(s))
      case Opaque(_) => TypeError
  }

  /** A reply whose `message` is a truthy non-string (a number, an object) reaches
      the render as a non-string and makes it throw. */
  lemma NonStringMessageThrows()
    ensures var events := [Edit("Ahoj"), Press, Succeeded(Data(NonStr(true, "42"), "{\n  \"message\": 42\n}"))];
      DisplayAsWritten(Run(Init, events).state) == TypeError
  {
    var events := [Edit("Ahoj"), Press, Succeeded(Data(NonStr(true, "42"), "{\n  \"message\": 42\n}"))];
    var s1 := Step(Init, events[0]).state;
    assert s1 == State("Ahoj", Text(""), false);
    assert !IsBlank(s1.prompt) by { assert !IsJsSpace(s1.prompt[0]); }
    var s2 := Step(s1, events[1]).state;
    assert s2 == State("Ahoj", Text(""), true);
    var s3 := Step(s2, events[2]).state;
    var message := NonStr(true, "42");
    assert message.Truthy();
    assert Extract(message, events[2].body.serialised) == Opaque("42");
    assert s3 == State("Ahoj", Opaque("42"), false);
    assert events[1..][1..] == [events[2]];
    assert events[1..] == [events[1], events[2]];
  }

  /** The render with the value converted to a string first, as the typeof test
      before the escape normalisation evidently intends. */
  function Display(st: State): (v: View)
    ensures v != TypeError
    ensures DisplayAsWritten(st) != TypeError ==> v == DisplayAsWritten(st)
    ensures st.response.Opaque? && !st.loading ==> v == Shown(ConvertToMarkdown(st.response.shown))
  {
    if !(st.loading || st.response.Truthy()) then Hidden
    else if st.loading then Spinner
    else match st.response
      case Text(s) => Shown(ConvertToMarkdown(s))
      case Opaque(shown) => Shown(ConvertToMarkdown(shown))
  }
}
