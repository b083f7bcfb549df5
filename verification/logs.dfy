/**
 * The grouped log collector: a map from group name to the messages stored
 * for it, and the console output, modelled as the sequence of writes made to
 * it. A message either goes to its group's buffer or straight to the
 * output, never both. Messages are opaque (type parameter `M`).
 */
module Logs {
  import opened Wrappers

  /** One write to the console. */
  datatype Write<M> =
    | Line(message: M)                           // the message and a newline
    | Prompt(message: M)                         // the message alone
    | MissingGroupWarning(group: string, message: M)
    | ClearWarning(group: string)
    | StatusWarning(repo: string)                // written by the status tracker

  datatype LogState<M> = LogState(groups: map<string, seq<M>>, out: seq<Write<M>>)

  /** The messages stored for a group; an unknown group has none. */
  function Get<M>(st: LogState<M>, group: string): (r: seq<M>)
    ensures group !in st.groups ==> r == []
    ensures group in st.groups ==> r == st.groups[group]
  {
    if group in st.groups then st.groups[group] else []
  }

  /** Replaces every group by one empty buffer per name; output is untouched. */
  function Initialize<M>(st: LogState<M>, names: seq<string>): (r: LogState<M>)
    ensures forall g :: g in r.groups <==> g in names
    ensures forall g :: Get(r, g) == []
    ensures r.out == st.out
  {
    LogState(map g | g in names :: [], st.out)
  }

  /**
   * Stores a message in a known group, warns about an unknown one, or (for
   * the global channel or `store == false`) writes it to the output.
   */
  function Add<M>(st: LogState<M>, group: Option<string>, message: M, store: bool, isPrompt: bool): (r: LogState<M>)
    ensures store && group.Some? && group.value in st.groups ==>
              r.out == st.out && r.groups == st.groups[group.value := Get(st, group.value) + [message]]
    ensures store && group.Some? && group.value !in st.groups ==>
              r.groups == st.groups && r.out == st.out + [MissingGroupWarning(group.value, message)]
    ensures !store || group.None? ==>
              r.groups == st.groups && r.out == st.out + [if isPrompt then Prompt(message) else Line(message)]
  {
    if store && group.Some? then
      if group.value !in st.groups then
        st.(out := st.out + [MissingGroupWarning(group.value, message)])
      else
        st.(groups := st.groups[group.value := st.groups[group.value] + [message]])
    else
      st.(out := st.out + [if isPrompt then Prompt(message) else Line(message)])
  }

  /** Empties a known group's buffer; an unknown group only draws a warning. */
  function Clear<M>(st: LogState<M>, group: string): (r: LogState<M>)
    ensures group in st.groups ==> r.out == st.out && r.groups == st.groups[group := []]
    ensures group !in st.groups ==> r.groups == st.groups && r.out == st.out + [ClearWarning(group)]
  {
    if group in st.groups then st.(groups := st.groups[group := []])
    else st.(out := st.out + [ClearWarning(group)])
  }

  /** The warnings for messages that could not be stored in an unknown group. */
  function Warnings<M>(group: string, messages: seq<M>): (r: seq<Write<M>>)
    ensures |r| == |messages|
    decreases |messages|
  {
    if |messages| == 0 then [] else [MissingGroupWarning(group, messages[0])] + Warnings(group, messages[1..])
  }

  /** The writes of several global messages, one line each. */
  function Lines<M>(messages: seq<M>): (r: seq<Write<M>>)
    ensures |r| == |messages|
    decreases |messages|
  {
    if |messages| == 0 then [] else [Line(messages[0])] + Lines(messages[1..])
  }

  /**
   * Several messages stored in one group as a batch: a known group gets them
   * appended in order, with no output; an unknown group stores nothing and
   * draws one warning per message.
   */
  function AddAll<M>(st: LogState<M>, group: string, messages: seq<M>): (r: LogState<M>)
    ensures group in st.groups ==> r.out == st.out && r.groups == st.groups[group := st.groups[group] + messages]
    ensures group !in st.groups ==> r.groups == st.groups && r.out == st.out + Warnings(group, messages)
  {
    if group in st.groups then st.(groups := st.groups[group := st.groups[group] + messages])
    else st.(out := st.out + Warnings(group, messages))
  }

  /** Several messages written to the global channel as a batch. */
  function PrintAll<M>(st: LogState<M>, messages: seq<M>): (r: LogState<M>)
    ensures r.groups == st.groups && r.out == st.out + Lines(messages)
  {
    st.(out := st.out + Lines(messages))
  }

  /** Stores messages in a group one `Add` at a time. */
  function AddEach<M>(st: LogState<M>, group: string, messages: seq<M>): LogState<M>
    decreases |messages|
  {
    if |messages| == 0 then st
    else AddEach(Add(st, Some(group), messages[0], true, false), group, messages[1..])
  }

  /** Writes messages to the global channel one `Add` at a time. */
  function PrintEach<M>(st: LogState<M>, messages: seq<M>): LogState<M>
    decreases |messages|
  {
    if |messages| == 0 then st
    else PrintEach(Add(st, None, messages[0], true, false), messages[1..])
  }

  /** Adding one message at a time is the batch store: same groups, same output. */
  lemma {:induction false} AddEachIsAddAll<M>(st: LogState<M>, group: string, messages: seq<M>)
    ensures AddEach(st, group, messages) == AddAll(st, group, messages)
    decreases |messages|
  {
    if |messages| > 0 {
      var st' := Add(st, Some(group), messages[0], true, false);
      AddEachIsAddAll(st', group, messages[1..]);
      assert messages == [messages[0]] + messages[1..];
      if group in st.groups {
        assert st.groups[group] + messages == st.groups[group] + [messages[0]] + messages[1..];
        assert AddAll(st', group, messages[1..]).groups == AddAll(st, group, messages).groups;
      } else {
        assert Warnings(group, messages) == [MissingGroupWarning(group, messages[0])] + Warnings(group, messages[1..]);
      }
    } else if group in st.groups {
      assert st.groups[group] + messages == st.groups[group];
      assert st.groups[group := st.groups[group] + messages] == st.groups;
    } else {
      assert st.out + Warnings(group, messages) == st.out;
    }
  }

  /** Printing one message at a time is the batch print: storage untouched, one line per message, in order. */
  lemma {:induction false} PrintEachIsPrintAll<M>(st: LogState<M>, messages: seq<M>)
    ensures PrintEach(st, messages) == PrintAll(st, messages)
    decreases |messages|
  {
    if |messages| > 0 {
      var st' := Add(st, None, messages[0], true, false);
      PrintEachIsPrintAll(st', messages[1..]);
      assert Lines(messages) == [Line(messages[0])] + Lines(messages[1..]);
    }
  }

  /**
   * Log isolation: storing m1 in group a and m2 in group b, in either order,
   * gives the same collector, and each group holds only its own message.
   */
  lemma StoresCommute<M>(st: LogState<M>, a: string, b: string, m1: M, m2: M)
    requires a != b && a in st.groups && b in st.groups
    requires Get(st, a) == [] && Get(st, b) == []
    ensures var ab := Add(Add(st, Some(a), m1, true, false), Some(b), m2, true, false);
            var ba := Add(Add(st, Some(b), m2, true, false), Some(a), m1, true, false);
            ab == ba && Get(ab, a) == [m1] && Get(ab, b) == [m2]
  {
    var ab := Add(Add(st, Some(a), m1, true, false), Some(b), m2, true, false);
    var ba := Add(Add(st, Some(b), m2, true, false), Some(a), m1, true, false);
    assert ab.groups == ba.groups;
  }
}
