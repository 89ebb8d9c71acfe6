/** The task entry form of `src/components/TodoForm.js`: a two-event state machine over the
    draft text. Typing replaces the draft; submitting a draft that is not blank emits it,
    untrimmed, to the controller and clears the draft. */
module TodoForm {
  import opened Wrappers

  /** The characters JavaScript's `String.prototype.trim` removes: the WhiteSpace and
      LineTerminator productions of ECMAScript (tab, vertical tab, form feed, space, no-break
      space, zero-width no-break space, the Unicode space separators, line feed, carriage
      return, line separator, paragraph separator). */
  predicate IsSpace(c: char)
  {
    || c == '\t' || c == '\U{000B}' || c == '\U{000C}' || c == ' ' || c == '\U{00A0}'
    || c == '\U{FEFF}' || c == '\U{1680}' || ('\U{2000}' <= c <= '\U{200A}')
    || c == '\U{202F}' || c == '\U{205F}' || c == '\U{3000}'
    || c == '\n' || c == '\r' || c == '\U{2028}' || c == '\U{2029}'
  }

  /** Empty or made only of whitespace. */
  predicate IsBlank(s: string)
  {
    forall i :: 0 <= i < |s| ==> IsSpace(s[i])
  }

  /** Length of the whitespace run that starts `s`. */
  function LeadingSpaces(s: string): (k: nat)
    ensures k <= |s|
    ensures IsBlank(s[..k])
    ensures k == |s| || !IsSpace(s[k])
  {
    if s == [] || !IsSpace(s[0]) then 0
    else
      var k := LeadingSpaces(s[1..]);
      assert forall i :: 0 < i < k + 1 ==> s[i] == s[1..][..k][i - 1];
      k + 1
  }

  /** Where the whitespace run that ends `s` begins. */
  function TrailingStart(s: string): (k: nat)
    ensures k <= |s|
    ensures IsBlank(s[k..])
    ensures k == 0 || !IsSpace(s[k - 1])
  {
    if s == [] || !IsSpace(s[|s| - 1]) then |s|
    else
      var p := s[..|s| - 1];
      var k := TrailingStart(p);
      assert forall i :: k <= i < |p| ==> s[i] == p[k..][i - k];
      k
  }

  /** `String.prototype.trim`: `s` without leading and trailing whitespace. */
  function Trim(s: string): (r: string)
    ensures r == [] || (!IsSpace(r[0]) && !IsSpace(r[|r| - 1]))
    ensures exists a :: 0 <= a && a + |r| <= |s| && r == s[a..a + |r|]
                        && IsBlank(s[..a]) && IsBlank(s[a + |r|..])
  {
    var a := LeadingSpaces(s);
    var t := s[a..];
    var b := TrailingStart(t);
    assert t[..b] == s[a..a + b];
    assert s[a + b..] == t[b..];
    t[..b]
  }

  /** The form's guard `input.trim()` is falsy exactly for blank drafts. */
  lemma {:induction false} TrimEmptyIffBlank(s: string)
    ensures Trim(s) == "" <==> IsBlank(s)
  {
    var a := LeadingSpaces(s);
    var t := s[a..];
    var b := TrailingStart(t);
    if IsBlank(s) {
      assert a == |s|;
    }
    if b == 0 {
      assert a == |s|;
      assert s == s[..a];
    }
  }

  /** The outcome of one event: the new draft and the text handed to the controller, if any. */
  datatype Outcome = Outcome(draft: string, added: Option<string>)

  /** `handleSubmit`: a non-blank draft is emitted as typed and the draft cleared; a blank
      draft is kept and nothing is emitted. */
  function HandleSubmit(draft: string): (o: Outcome)
    ensures IsBlank(draft) ==> o == Outcome(draft, None)
    ensures !IsBlank(draft) ==> o == Outcome("", Some(draft))
  {
    TrimEmptyIffBlank(draft);
    if Trim(draft) != "" then Outcome("", Some(draft)) else Outcome(draft, None)
  }

  /** An input event: the field's change handler firing with a new value, or a submit. */
  datatype Event = Change(value: string) | Submit

  /** One event: typing sets the draft to the field's value, submitting runs the guard. */
  function Step(draft: string, e: Event): (o: Outcome)
    ensures e.Change? ==> o.draft == e.value && o.added == None
    ensures e.Submit? && IsBlank(draft) ==> o.draft == draft && o.added == None
    ensures e.Submit? && !IsBlank(draft) ==> o.draft == "" && o.added == Some(draft)
  {
    match e
    case Change(value) => Outcome(value, None)
    case Submit => HandleSubmit(draft)
  }

  /** Number of typing events in `es`. */
  function Changes(es: seq<Event>): nat
  {
    if es == [] then 0 else (if es[0].Change? then 1 else 0) + Changes(es[1..])
  }

  datatype Trace = Trace(draft: string, emitted: seq<string>)

  /** Feeds `es` to the form starting from `draft`. Every emitted text is non-blank and is
      either the starting draft or a typed value, untouched; and since a successful submit
      leaves a blank draft, there are at most as many emissions as typing events, plus one
      for a non-blank starting draft. */
  function Run(draft: string, es: seq<Event>): (t: Trace)
    ensures forall x :: x in t.emitted ==> !IsBlank(x) && (x == draft || Change(x) in es)
    ensures |t.emitted| <= (if IsBlank(draft) then 0 else 1) + Changes(es)
    ensures es == [] ==> t == Trace(draft, [])
    decreases |es|
  {
    if es == [] then Trace(draft, [])
    else
      var o := Step(draft, es[0]);
      var rest := Run(o.draft, es[1..]);
      assert IsBlank("");
      assert forall x :: x in rest.emitted ==> Change(x) in es[1..] ==> Change(x) in es;
      var out := if o.added.Some? then [o.added.value] else [];
      Trace(rest.draft, out + rest.emitted)
  }

  /** A typing event replaces the draft with the typed value: running from any draft with a
      typing event first is running from that value. */
  lemma {:induction false} TypingReplacesDraft(d: string, v: string, es: seq<Event>)
    ensures Run(d, [Change(v)] + es) == Run(v, es)
  {
    assert ([Change(v)] + es)[1..] == es;
  }

  /** Two submits with no typing in between emit at most once, and leave a blank draft. */
  lemma {:induction false} DoubleSubmitEmitsAtMostOnce(draft: string)
    ensures |Run(draft, [Submit, Submit]).emitted| <= 1
    ensures IsBlank(Run(draft, [Submit, Submit]).draft) || Run(draft, [Submit, Submit]).draft == draft
  {
    assert Changes([Submit, Submit]) == 0 by {
      assert [Submit, Submit][1..] == [Submit];
      assert [Submit][1..] == [];
    }
  }
}
