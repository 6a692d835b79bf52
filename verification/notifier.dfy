/** The notifier decorators of 4/2/index.js: each channel decorator logs its
    own line and then delegates to the notifier it wraps, down to the e-mail
    notifier at the bottom. The log element's text is the state the lines are
    appended to. */
module Notifiers {
  import opened Wrappers

  const DefaultMessage: string := "Приклад повідомлення"

  datatype Channel = Telegram | WhatsApp | Push

  function ChannelName(c: Channel): string
  {
    match c
    case Telegram => "Telegram"
    case WhatsApp => "WhatsApp"
    case Push => "Push"
  }

  /** A `BaseNotifier`, or a decorator around an optional next notifier; a
      bare `NotifierDecorator` has no channel of its own. */
  datatype Notifier =
    | Base
    | Decorator(channel: Option<Channel>, next: Option<Notifier>)

  /** `log(channel, message)`. */
  function LogLine(channel: string, message: string): string
  {
    "[" + channel + "] " + message
  }

  /** The lines `notify(message)` logs, in order. */
  function Lines(n: Notifier, message: string): (r: seq<string>)
    ensures n.Base? ==> r == [LogLine("Email", message)]
    ensures n.Decorator? && n.channel.Some? ==> |r| >= 1 && r[0] == LogLine(ChannelName(n.channel.value), message)
    ensures n.Decorator? && n.next.None? ==> |r| <= 1
  {
    match n
    case Base => [LogLine("Email", message)]
    case Decorator(channel, next) =>
      var own := if channel.Some? then [LogLine(ChannelName(channel.value), message)] else [];
      own + if next.Some? then Lines(next.value, message) else []
  }

  /** The log element's text after lines are appended one by one. */
  function Render(lines: seq<string>): string
  {
    if |lines| == 0 then "" else lines[0] + "\n" + Render(lines[1..])
  }

  lemma {:induction false} RenderAppend(a: seq<string>, b: seq<string>)
    ensures Render(a + b) == Render(a) + Render(b)
    decreases |a|
  {
    if |a| == 0 {
      assert a + b == b;
    } else {
      assert (a + b)[1..] == a[1..] + b;
      RenderAppend(a[1..], b);
    }
  }

  lemma RenderOne(line: string)
    ensures Render([line]) == line + "\n"
  {
    assert [line][1..] == [];
  }

  /** The log element. */
  class LogView {
    var text: string

    constructor ()
      ensures text == ""
    {
      text := "";
    }

    /** `logEl.textContent = ''`. */
    method Clear()
      modifies this
      ensures text == ""
    {
      text := "";
    }

    /** `appendLog(line)`. */
    method Append(line: string)
      modifies this
      ensures text == old(text) + line + "\n"
    {
      text := text + line + "\n";
    }
  }

  /** `notify(message)` on any notifier: its lines are appended to the log in
      order. */
  method Notify(n: Notifier, message: string, log: LogView)
    modifies log
    ensures log.text == old(log.text) + Render(Lines(n, message))
    decreases n
  {
    match n
    case Base =>
      log.Append(LogLine("Email", message));
      RenderOne(LogLine("Email", message));
    case Decorator(channel, next) =>
      var own: seq<string> := [];
      if channel.Some? {
        own := [LogLine(ChannelName(channel.value), message)];
        log.Append(own[0]);
        RenderOne(own[0]);
      }
      var t := log.text;
      assert t == old(log.text) + Render(own);
      var rest := if next.Some? then Lines(next.value, message) else [];
      assert Lines(n, message) == own + rest;
      RenderAppend(own, rest);
      if next.Some? {
        Notify(next.value, message, log);
      }
  }

  /** The lines of one send: enabled channels outermost first, then e-mail. */
  function SendLines(message: string, tg: bool, wa: bool, push: bool): seq<string>
  {
    (if push then [LogLine("Push", message)] else [])
    + (if wa then [LogLine("WhatsApp", message)] else [])
    + (if tg then [LogLine("Telegram", message)] else [])
    + [LogLine("Email", message)]
  }

  /** The chain the send handler builds, wrapping Telegram, then WhatsApp, then
      Push around the base notifier, logs the channels in the reverse order
      and e-mail last, exactly once. */
  lemma ChainLines(message: string, tg: bool, wa: bool, push: bool)
    ensures
      var n0 := Base;
      var n1 := if tg then Decorator(Some(Telegram), Some(n0)) else n0;
      var n2 := if wa then Decorator(Some(WhatsApp), Some(n1)) else n1;
      var n3 := if push then Decorator(Some(Push), Some(n2)) else n2;
      Lines(n3, message) == SendLines(message, tg, wa, push)
  {
  }

  /** E-mail comes last and exactly once, after at most three channel lines. */
  lemma EmailLastOnce(message: string, tg: bool, wa: bool, push: bool)
    ensures var r := SendLines(message, tg, wa, push);
      1 <= |r| <= 4 && r[|r| - 1] == LogLine("Email", message)
      && forall i :: 0 <= i < |r| - 1 ==> r[i] != LogLine("Email", message)
  {
    var r := SendLines(message, tg, wa, push);
    forall i | 0 <= i < |r| - 1
      ensures r[i] != LogLine("Email", message)
    {
      var email := LogLine("Email", message);
      assert r[i][1] != email[1];
    }
  }

  /** The send handler: clear the log, fall back to the default message for an
      empty input, build the chain step by step, notify. */
  method Send(input: string, tg: bool, wa: bool, push: bool, log: LogView)
    modifies log
    ensures log.text == Render(SendLines(if input != "" then input else DefaultMessage, tg, wa, push))
  {
    log.Clear();
    var message := if input != "" then input else DefaultMessage;
    var notifier := Base;
    if tg {
      notifier := Decorator(Some(Telegram), Some(notifier));
    }
    if wa {
      notifier := Decorator(Some(WhatsApp), Some(notifier));
    }
    if push {
      notifier := Decorator(Some(Push), Some(notifier));
    }
    ChainLines(message, tg, wa, push);
    Notify(notifier, message, log);
  }
}
