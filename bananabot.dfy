/**
 * The helpers of `BananaBot`: a CTCP ACTION is a private message whose
 * text is the act wrapped as `\x01ACTION <act>\x01`.
 */
module Bot {
  import opened Basics

  /** The arguments a call of `send_privmsg` hands over: where and what to send. */
  datatype PrivmsgRequest = PrivmsgRequest(recipient: string, text: string)

  /** `ACTION_FORMAT` before the act: the CTCP delimiter, `ACTION` and a space. */
  const ActionPrefix: string := "\U{1}ACTION "

  /** `ACTION_FORMAT` after the act: the closing CTCP delimiter. */
  const ActionSuffix: char := '\U{1}'

  /**
   * A call of `send_privmsg`. Its body is empty in the source, so what it
   * amounts to is the request it is handed.
   */
  function SendPrivmsg(recipient: string, text: string): (r: PrivmsgRequest)
    ensures r.recipient == recipient && r.text == text
  {
    PrivmsgRequest(recipient, text)
  }

  /** `ACTION_FORMAT.format(act)`. */
  function ActionText(act: string): (t: string)
    ensures |t| == |act| + 9
    ensures t[..8] == ActionPrefix && t[|t| - 1] == ActionSuffix
    ensures t[8..|t| - 1] == act
  {
    ActionPrefix + act + [ActionSuffix]
  }

  /** The act a CTCP ACTION text carries, if the text is one. */
  function UnwrapAction(t: string): (r: Option<string>)
    ensures r.Some? <==> |t| >= 9 && t[..8] == ActionPrefix && t[|t| - 1] == ActionSuffix
  {
    if |t| >= 9 && t[..8] == ActionPrefix && t[|t| - 1] == ActionSuffix then Some(t[8..|t| - 1])
    else None
  }

  /** Stripping the prefix and the suffix recovers the act exactly. */
  lemma UnwrapWrap(act: string)
    ensures UnwrapAction(ActionText(act)) == Some(act)
  {
  }

  /** Every ACTION text is the wrapping of the act it carries. */
  lemma WrapUnwrap(t: string)
    requires UnwrapAction(t).Some?
    ensures ActionText(UnwrapAction(t).value) == t
  {
    var act := UnwrapAction(t).value;
    assert t == t[..8] + act + [t[|t| - 1]];
  }

  /** Different acts give different texts. */
  lemma ActionTextInjective(a: string, b: string)
    requires ActionText(a) == ActionText(b)
    ensures a == b
  {
    UnwrapWrap(a);
    UnwrapWrap(b);
  }

  /** `send_action`: the recipient unchanged, and the act as an ACTION text. */
  function SendAction(recipient: string, act: string): (r: PrivmsgRequest)
    ensures r.recipient == recipient
    ensures UnwrapAction(r.text) == Some(act)
  {
    UnwrapWrap(act);
    SendPrivmsg(recipient, ActionText(act))
  }
}
