/** A message collected while fixing workflow paths (`PathFixerMessage`): a
    type and a text, rendered as `<Label>: <text>`. */
module PathFixerMessages {
  import opened Strings

  const TypeError := "error"
  const TypeWarning := "warning"
  const TypeSuccess := "success"
  const TypeNotice := "notice"

  /** `sprintf`, which the model does not interpret: a format string and its
      arguments give a text. */
  type Formatter = (string, seq<string>) -> string

  datatype Message = Message(kind: string, text: string)

  /** The constructor: the message is formatted with the arguments when
      there are any, and stored as given otherwise. */
  function NewMessage(kind: string, message: string, args: seq<string>, sprintf: Formatter): (m: Message)
    ensures m.kind == kind
    ensures |args| == 0 ==> m.text == message
    ensures |args| > 0 ==> m.text == sprintf(message, args)
  {
    Message(kind, if |args| == 0 then message else sprintf(message, args))
  }

  /** The `match` in `render()`: the three known types have their own label,
      every other type reads as a notice. */
  function TypeLabel(kind: string): (r: string)
    ensures r in ["Error", "Warning", "Success", "Notice"]
    ensures r == "Error" <==> kind == TypeError
    ensures r == "Warning" <==> kind == TypeWarning
    ensures r == "Success" <==> kind == TypeSuccess
    ensures r == "Notice" <==> kind != TypeError && kind != TypeWarning && kind != TypeSuccess
  {
    if kind == TypeError then "Error"
    else if kind == TypeWarning then "Warning"
    else if kind == TypeSuccess then "Success"
    else "Notice"
  }

  /** `render()` */
  function Render(m: Message): (r: string)
    ensures IsPrefix(TypeLabel(m.kind) + ": ", r)
    ensures IsSuffix(m.text, r)
    ensures |r| == |TypeLabel(m.kind)| + 2 + |m.text|
  {
    TypeLabel(m.kind) + ": " + m.text
  }

  /** `__toString()`: the text the message prints as, its label, a colon
      and a space, then its text. */
  function ToString(m: Message): (r: string)
    ensures IsPrefix(TypeLabel(m.kind) + ": ", r)
    ensures IsSuffix(m.text, r)
    ensures |r| == |TypeLabel(m.kind)| + 2 + |m.text|
  {
    Render(m)
  }

  /** A new message prints with the label of its type: without arguments
      the given text follows it unchanged, with arguments the formatted
      text does. */
  lemma NewMessageRender(kind: string, message: string, args: seq<string>, sprintf: Formatter)
    ensures |args| == 0 ==> ToString(NewMessage(kind, message, args, sprintf)) == TypeLabel(kind) + ": " + message
    ensures |args| > 0 ==> ToString(NewMessage(kind, message, args, sprintf)) == TypeLabel(kind) + ": " + sprintf(message, args)
    ensures kind == TypeError ==> IsPrefix("Error: ", ToString(NewMessage(kind, message, args, sprintf)))
  {
  }

  /** The first colon of a rendered message ends the label. */
  lemma LabelColon(m: Message)
    ensures ':' !in TypeLabel(m.kind)
    ensures Render(m)[|TypeLabel(m.kind)|] == ':'
  {
  }

  /** A rendered message gives back its label and its text: two messages
      render alike exactly when their labels and texts agree. */
  lemma RenderInjective(m1: Message, m2: Message)
    ensures Render(m1) == Render(m2) <==> TypeLabel(m1.kind) == TypeLabel(m2.kind) && m1.text == m2.text
  {
    var l1 := TypeLabel(m1.kind);
    var l2 := TypeLabel(m2.kind);
    if Render(m1) == Render(m2) {
      LabelColon(m1);
      LabelColon(m2);
      var r := Render(m1);
      assert l1 == l2 by {
        assert r[..|l1|] == l1 && Render(m2)[..|l2|] == l2;
        assert forall i :: 0 <= i < |l1| ==> r[i] != ':';
        assert forall i :: 0 <= i < |l2| ==> r[i] != ':';
      }
      assert m1.text == r[|l1| + 2..] == m2.text;
    }
  }
}
