/**
 * `query_yes_no`, the confirmation prompt both versions of the script use:
 * it reads lines until one is a valid answer. The console is a sequence of
 * input lines; running out of lines is `input()` raising `EOFError`.
 */
module Prompt {
  import opened Text
  import opened Models

  /** The accepted answers and what they mean. */
  const Valid: map<string, bool> :=
    map["yes" := true, "y" := true, "ye" := true, "no" := false, "n" := false]

  /** The defaults the prompt accepts: none, "yes" or "no". */
  predicate DefaultOk(default: Option<string>) {
    default.None? || default.value == "yes" || default.value == "no"
  }

  /** What one lower-cased line answers, if it answers at all. */
  function Answer(default: Option<string>, choice: string): (r: Option<bool>)
    requires DefaultOk(default)
    ensures r == Some(true) <==> choice in {"yes", "y", "ye"} || (choice == "" && default == Some("yes"))
    ensures r == Some(false) <==> choice in {"no", "n"} || (choice == "" && default == Some("no"))
  {
    if default.Some? && default.value != "" && choice == "" then Some(Valid[default.value])
    else if choice in Valid then Some(Valid[choice])
    else None
  }

  /** The answer and how many lines were read to get it. */
  datatype Reply = Reply(yes: bool, consumed: nat)

  /** Reading lines until one answers. */
  function Ask(default: Option<string>, inputs: seq<string>): (r: Result<Reply>)
    requires DefaultOk(default)
    ensures r.Failure? ==> r.error == EOFError
    ensures r.Success? ==> 1 <= r.value.consumed <= |inputs|
  {
    if inputs == [] then Failure(EOFError)
    else match Answer(default, Lower(inputs[0]))
      case Some(b) => Success(Reply(b, 1))
      case None =>
        match Ask(default, inputs[1..])
        case Success(reply) => Success(Reply(reply.yes, reply.consumed + 1))
        case Failure(e) => Failure(e)
  }

  /** `query_yes_no(question, default)` over the lines still to be read. */
  function QueryYesNo(default: Option<string>, inputs: seq<string>): (r: Result<Reply>)
    ensures !DefaultOk(default) ==> r.Failure? && r.error.ValueError?
    ensures DefaultOk(default) ==> r == Ask(default, inputs)
  {
    if !DefaultOk(default) then Failure(ValueError("invalid default answer: '" + default.value + "'"))
    else Ask(default, inputs)
  }

  /** The prompt loop. */
  method AskYesNo(default: Option<string>, inputs: seq<string>) returns (r: Result<Reply>)
    ensures r == QueryYesNo(default, inputs)
  {
    if !DefaultOk(default) {
      return Failure(ValueError("invalid default answer: '" + default.value + "'"));
    }
    var i := 0;
    while i < |inputs|
      invariant 0 <= i <= |inputs|
      invariant forall j :: 0 <= j < i ==> Answer(default, Lower(inputs[j])).None?
      invariant Ask(default, inputs[i..]).Success? ==>
                  Ask(default, inputs) == Success(Reply(Ask(default, inputs[i..]).value.yes,
                                                        Ask(default, inputs[i..]).value.consumed + i))
      invariant Ask(default, inputs[i..]).Failure? ==> Ask(default, inputs) == Ask(default, inputs[i..])
    {
      var choice := Lower(inputs[i]);
      var a := Answer(default, choice);
      if a.Some? {
        return Success(Reply(a.value, i + 1));
      }
      assert inputs[i..][1..] == inputs[i + 1..];
      i := i + 1;
    }
    return Failure(EOFError);
  }

  /**
   * A reply is read from the line it reports as the last one consumed, and
   * every line before it failed to answer.
   */
  lemma {:induction false} AskSound(default: Option<string>, inputs: seq<string>)
    requires DefaultOk(default)
    requires Ask(default, inputs).Success?
    ensures var reply := Ask(default, inputs).value;
            Answer(default, Lower(inputs[reply.consumed - 1])) == Some(reply.yes) &&
            forall j :: 0 <= j < reply.consumed - 1 ==> Answer(default, Lower(inputs[j])).None?
  {
    if Answer(default, Lower(inputs[0])).None? {
      AskSound(default, inputs[1..]);
    }
  }

  /** The prompt runs out of input exactly when no line answers. */
  lemma {:induction false} AskEof(default: Option<string>, inputs: seq<string>)
    requires DefaultOk(default)
    ensures Ask(default, inputs).Failure? <==>
            forall j :: 0 <= j < |inputs| ==> Answer(default, Lower(inputs[j])).None?
  {
    if inputs != [] && Answer(default, Lower(inputs[0])).None? {
      AskEof(default, inputs[1..]);
      assert forall j :: 1 <= j < |inputs| ==> inputs[j] == inputs[1..][j - 1];
    }
  }

  /** An empty first line gives the default at once. */
  lemma EmptyAnswerGivesDefault(default: string, inputs: seq<string>)
    requires default == "yes" || default == "no"
    requires inputs != [] && inputs[0] == ""
    ensures QueryYesNo(Some(default), inputs) == Success(Reply(default == "yes", 1))
  {
    assert Lower(inputs[0]) == "";
  }
}
