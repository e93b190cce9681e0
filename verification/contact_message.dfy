/** The text the contact forms send (script.js:363-380): a fixed greeting,
    then one `name: value` line per property of
    `Object.fromEntries(new FormData(form))`, in `Object.entries` order.
    Form values are strings (file inputs are not modelled); the URL
    encoding and the opening of the messaging link are not modelled. */
module ContactMessage {
  import JsObject

  /** The greeting that opens every message, with its blank line. */
  const Greeting: string :=
    "Ol\U{E1}! Gostaria de mais informa\U{E7}\U{F5}es sobre os planos da Entornet Fibra.\n\n"

  /** One line of the message. */
  function Line(p: JsObject.Pair): string {
    p.0 + ": " + p.1 + "\n"
  }

  /** The lines of a list of properties, in order. */
  function Lines(ps: seq<JsObject.Pair>): string
    decreases |ps|
  {
    if |ps| == 0 then "" else Lines(ps[..|ps| - 1]) + Line(ps[|ps| - 1])
  }

  /** The message for a form's name/value pairs. */
  function Message(form: seq<JsObject.Pair>): (m: string)
    ensures |m| >= |Greeting| && m[..|Greeting|] == Greeting
  {
    Greeting + Lines(JsObject.Entries(JsObject.FromEntries(form)))
  }

  lemma {:induction false} LinesAppend(a: seq<JsObject.Pair>, b: seq<JsObject.Pair>)
    ensures Lines(a + b) == Lines(a) + Lines(b)
    decreases |b|
  {
    if |b| == 0 {
      assert a + b == a;
    } else {
      var c := b[..|b| - 1];
      var p := b[|b| - 1];
      assert Lines(b) == Lines(c) + Line(p) by { LinesSnoc(c, p); assert c + [p] == b; }
      assert Lines(a + b) == Lines(a + c) + Line(p) by {
        LinesSnoc(a + c, p);
        assert (a + c) + [p] == a + b;
      }
      LinesAppend(a, c);
      assert (Lines(a) + Lines(c)) + Line(p) == Lines(a) + (Lines(c) + Line(p));
    }
  }

  /** Appending one property appends its line. */
  lemma LinesSnoc(ps: seq<JsObject.Pair>, p: JsObject.Pair)
    ensures Lines(ps + [p]) == Lines(ps) + Line(p)
  {
    assert (ps + [p])[..|ps|] == ps;
  }

  /** A form whose field names are distinct and not array indices yields the
      greeting followed by one `name: value` line per field, in form order. */
  lemma MessageInFormOrder(form: seq<JsObject.Pair>)
    requires JsObject.DistinctKeys(form)
    requires forall i :: 0 <= i < |form| ==> !JsObject.IsArrayIndex(form[i].0)
    ensures Message(form) == Greeting + Lines(form)
  {
    JsObject.FromEntriesDistinct(form);
    JsObject.EntriesWithoutIndices(form);
  }

  /** A form whose field names are not array indices, repeated names
      included (a group of checkboxes sharing a name): the greeting, then one
      `name: value` line per distinct name, in order of the name's first
      field, with the value of its last field. */
  lemma MessageMergesRepeats(form: seq<JsObject.Pair>)
    requires forall i :: 0 <= i < |form| ==> !JsObject.IsArrayIndex(form[i].0)
    ensures Message(form) == Greeting + Lines(JsObject.Merged(form))
  {
    var obj := JsObject.FromEntries(form);
    JsObject.FromEntriesMerged(form);
    forall i | 0 <= i < |obj|
      ensures !JsObject.IsArrayIndex(obj[i].0)
    {
      var j := JsObject.IndexOf(JsObject.Keys(form), obj[i].0);
      assert form[j].0 == obj[i].0;
    }
    JsObject.EntriesWithoutIndices(obj);
  }
}
