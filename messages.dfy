/**
 * The message board's grouping of messages into date sections. A message's
 * timestamp is reduced to its calendar day (a day number) and `today` is a
 * parameter. A section label is `Today`, `Yesterday`, or the day itself:
 * the `"%B %d, %Y"` text of a day names that day and no other, so keying the
 * sections by the day is keying them by that text.
 */
module MessageBoard {

  /** A row of the messages table; `day` is the calendar day of its timestamp. */
  datatype Message = Message(id: int, userId: int, content: string, day: int)

  datatype Label = Today | Yesterday | Other(day: int)

  /**
   * The sections as the handler builds them: a dictionary keeps its keys in
   * insertion order, so it is the list of labels plus the list under each.
   */
  datatype Grouping = Grouping(labels: seq<Label>, groups: map<Label, seq<Message>>)

  /** The label of a message written on `day`. */
  function LabelOf(day: int, today: int): Label {
    if day == today then Today
    else if day == today - 1 then Yesterday
    else Other(day)
  }

  /** `Today` exactly on today, `Yesterday` exactly the day before, and otherwise a label naming the day. */
  lemma LabelOfCases(day: int, today: int)
    ensures LabelOf(day, today) == Today <==> day == today
    ensures LabelOf(day, today) == Yesterday <==> day == today - 1
    ensures LabelOf(day, today).Other? ==> LabelOf(day, today).day == day
  {
  }

  /** Two messages share a section exactly when they were written on the same day. */
  lemma LabelOfSeparatesDays(day1: int, day2: int, today: int)
    ensures LabelOf(day1, today) == LabelOf(day2, today) <==> day1 == day2
  {
  }

  /** The label of each message, in message order. */
  function Labels(messages: seq<Message>, today: int): seq<Label> {
    seq(|messages|, i requires 0 <= i < |messages| => LabelOf(messages[i].day, today))
  }

  ghost predicate Distinct(labels: seq<Label>) {
    forall i, j :: 0 <= i < j < |labels| ==> labels[i] != labels[j]
  }

  /** The labels in the order they first appear, each once. */
  function FirstAppearances(labels: seq<Label>): (r: seq<Label>)
    ensures Distinct(r)
  {
    if labels == [] then []
    else
      var seen := FirstAppearances(labels[..|labels| - 1]);
      var l := labels[|labels| - 1];
      if l in seen then seen else seen + [l]
  }

  /** Every label appears among the first appearances, and nothing else does. */
  lemma {:induction false} FirstAppearancesMembers(labels: seq<Label>, l: Label)
    ensures l in FirstAppearances(labels) <==> l in labels
  {
    if labels != [] {
      var front := labels[..|labels| - 1];
      FirstAppearancesMembers(front, l);
      assert labels == front + [labels[|labels| - 1]];
    }
  }

  /** The index of the first occurrence of `l`. */
  function FirstIndex(labels: seq<Label>, l: Label): (r: nat)
    requires l in labels
    ensures r < |labels| && labels[r] == l
    ensures forall j :: 0 <= j < r ==> labels[j] != l
  {
    if labels[0] == l then 0 else 1 + FirstIndex(labels[1..], l)
  }

  /** The messages carrying label `l`, in their incoming order. */
  function Members(messages: seq<Message>, today: int, l: Label): seq<Message> {
    if messages == [] then []
    else
      var last := messages[|messages| - 1];
      Members(messages[..|messages| - 1], today, l) + (if LabelOf(last.day, today) == l then [last] else [])
  }

  /** The sections listed one after the other, as the page shows them. */
  function Flatten(messages: seq<Message>, today: int, labels: seq<Label>): seq<Message> {
    if labels == [] then [] else Members(messages, today, labels[0]) + Flatten(messages, today, labels[1..])
  }

  /** `grouped.setdefault(section, []).append(msg)`. */
  function SetDefaultAppend(grouped: Grouping, section: Label, msg: Message): Grouping {
    if section in grouped.groups
    then grouped.(groups := grouped.groups[section := grouped.groups[section] + [msg]])
    else Grouping(grouped.labels + [section], grouped.groups[section := [msg]])
  }

  /** `grouped` holds the sections of `messages`: labels by first appearance, each with its members. */
  ghost predicate GroupsOf(grouped: Grouping, messages: seq<Message>, today: int) {
    && grouped.labels == FirstAppearances(Labels(messages, today))
    && (forall l :: l in grouped.groups <==> l in grouped.labels)
    && (forall l :: l in grouped.groups ==> grouped.groups[l] == Members(messages, today, l))
  }

  /** One more message adds its label at the end. */
  lemma LabelsSnoc(messages: seq<Message>, msg: Message, today: int)
    ensures Labels(messages + [msg], today) == Labels(messages, today) + [LabelOf(msg.day, today)]
  {
    assert (messages + [msg])[..|messages|] == messages;
  }

  /** One more label is appended to the first appearances only if it is new. */
  lemma FirstAppearancesSnoc(labels: seq<Label>, l: Label)
    ensures FirstAppearances(labels + [l])
         == if l in FirstAppearances(labels) then FirstAppearances(labels) else FirstAppearances(labels) + [l]
  {
    assert (labels + [l])[..|labels|] == labels;
  }

  /** One more message joins the end of its own section and no other. */
  lemma MembersSnoc(messages: seq<Message>, msg: Message, today: int, l: Label)
    ensures Members(messages + [msg], today, l)
         == Members(messages, today, l) + (if LabelOf(msg.day, today) == l then [msg] else [])
  {
    assert (messages + [msg])[..|messages|] == messages;
  }

  /** Filing the next message keeps the sections in step with the messages seen so far. */
  lemma SetDefaultAppendStep(grouped: Grouping, messages: seq<Message>, i: nat, today: int)
    requires i < |messages| && GroupsOf(grouped, messages[..i], today)
    ensures GroupsOf(SetDefaultAppend(grouped, LabelOf(messages[i].day, today), messages[i]), messages[..i + 1], today)
  {
    var filed, msg := messages[..i], messages[i];
    var section := LabelOf(msg.day, today);
    var next := SetDefaultAppend(grouped, section, msg);
    var extended := filed + [msg];
    assert messages[..i + 1] == extended;
    assert next.labels == FirstAppearances(Labels(extended, today)) by {
      LabelsSnoc(filed, msg, today);
      FirstAppearancesSnoc(Labels(filed, today), section);
    }
    assert forall l :: l in next.groups <==> l in next.labels;
    forall l | l in next.groups
      ensures next.groups[l] == Members(extended, today, l)
    {
      MembersSnoc(filed, msg, today, l);
      if l != section {
        assert next.groups[l] == grouped.groups[l];
      } else if section in grouped.groups {
        assert next.groups[l] == grouped.groups[l] + [msg];
      } else {
        FirstAppearancesMembers(Labels(filed, today), section);
        MembersOfUnseenLabel(filed, today, section);
      }
    }
  }

  /**
   * `group_messages_by_date`: each message is appended to the list of its
   * label, and a label seen for the first time opens a new section at the end.
   */
  method GroupMessagesByDate(messages: seq<Message>, today: int) returns (grouped: Grouping)
    ensures grouped.labels == FirstAppearances(Labels(messages, today))
    ensures forall l :: l in grouped.groups <==> l in grouped.labels
    ensures forall l :: l in grouped.groups ==> grouped.groups[l] == Members(messages, today, l)
  {
    grouped := Grouping([], map[]);
    assert Labels(messages[..0], today) == [];
    for i := 0 to |messages|
      invariant GroupsOf(grouped, messages[..i], today)
    {
      SetDefaultAppendStep(grouped, messages, i, today);
      grouped := SetDefaultAppend(grouped, LabelOf(messages[i].day, today), messages[i]);
    }
    assert messages[..|messages|] == messages;
  }

  /** A label no message carries has no members. */
  lemma {:induction false} MembersOfUnseenLabel(messages: seq<Message>, today: int, l: Label)
    requires l !in Labels(messages, today)
    ensures Members(messages, today, l) == []
  {
    if messages != [] {
      var prefix := messages[..|messages| - 1];
      assert Labels(prefix, today) == Labels(messages, today)[..|messages| - 1];
      assert Labels(messages, today)[|messages| - 1] != l;
      MembersOfUnseenLabel(prefix, today, l);
    }
  }

  /** Sections keep the incoming order: grouping a concatenation concatenates the groups. */
  lemma {:induction false} MembersOfConcat(a: seq<Message>, b: seq<Message>, today: int, l: Label)
    ensures Members(a + b, today, l) == Members(a, today, l) + Members(b, today, l)
  {
    if b == [] {
      assert a + b == a;
    } else {
      var front := b[..|b| - 1];
      assert (a + b)[..|a + b| - 1] == a + front;
      MembersOfConcat(a, front, today, l);
    }
  }

  /** A section holds every copy of a message carrying its label and nothing else. */
  lemma {:induction false} MembersCount(messages: seq<Message>, today: int, l: Label, m: Message)
    ensures multiset(Members(messages, today, l))[m]
         == if LabelOf(m.day, today) == l then multiset(messages)[m] else 0
  {
    if messages != [] {
      var prefix := messages[..|messages| - 1];
      assert messages == prefix + [messages[|messages| - 1]];
      MembersCount(prefix, today, l, m);
    }
  }

  /** Over distinct labels, a message is counted once if its label is among them and not at all otherwise. */
  lemma {:induction false} FlattenCount(messages: seq<Message>, today: int, labels: seq<Label>, m: Message)
    requires Distinct(labels)
    ensures multiset(Flatten(messages, today, labels))[m]
         == if LabelOf(m.day, today) in labels then multiset(messages)[m] else 0
  {
    if labels != [] {
      assert Distinct(labels[1..]);
      FlattenCount(messages, today, labels[1..], m);
      MembersCount(messages, today, labels[0], m);
      assert labels == [labels[0]] + labels[1..];
    }
  }

  /**
   * The sections partition the messages: listed section by section, in the
   * order of the labels, they hold every message exactly as often as the
   * input does, and so exactly as many messages in all.
   */
  lemma GroupsPartitionMessages(messages: seq<Message>, today: int)
    ensures multiset(Flatten(messages, today, FirstAppearances(Labels(messages, today)))) == multiset(messages)
    ensures |Flatten(messages, today, FirstAppearances(Labels(messages, today)))| == |messages|
  {
    var labels := FirstAppearances(Labels(messages, today));
    var flat := Flatten(messages, today, labels);
    forall m ensures multiset(flat)[m] == multiset(messages)[m] {
      FlattenCount(messages, today, labels, m);
      FirstAppearancesMembers(Labels(messages, today), LabelOf(m.day, today));
      if m in messages {
        var i :| 0 <= i < |messages| && messages[i] == m;
        assert LabelOf(m.day, today) == Labels(messages, today)[i];
      }
    }
    assert multiset(flat) == multiset(messages);
    assert |multiset(flat)| == |multiset(messages)|;
  }

  /** Sections are ordered by the first message carrying each label. */
  lemma {:induction false} FirstAppearancesOrdered(labels: seq<Label>, i: nat, j: nat)
    requires i < j < |FirstAppearances(labels)|
    ensures FirstAppearances(labels)[i] in labels && FirstAppearances(labels)[j] in labels
    ensures FirstIndex(labels, FirstAppearances(labels)[i]) < FirstIndex(labels, FirstAppearances(labels)[j])
  {
    var r := FirstAppearances(labels);
    assert r[i] in r && r[j] in r;
    var front := labels[..|labels| - 1];
    var seen := FirstAppearances(front);
    var x, y := r[i], r[j];
    assert x == seen[i];
    FirstAppearancesMembers(front, x);
    FirstIndexOfPrefix(labels, front, x);
    if j < |seen| {
      assert x == seen[i] && y == seen[j];
      FirstAppearancesOrdered(front, i, j);
      FirstIndexOfPrefix(labels, front, y);
    } else {
      assert y == labels[|labels| - 1] && y !in seen;
      FirstAppearancesMembers(front, y);
    }
  }

  /** The first occurrence of a label that already occurs in a prefix lies in that prefix. */
  lemma FirstIndexOfPrefix(labels: seq<Label>, front: seq<Label>, l: Label)
    requires front <= labels && l in front
    ensures FirstIndex(labels, l) == FirstIndex(front, l)
  {
    var p, q := FirstIndex(labels, l), FirstIndex(front, l);
    assert labels[q] == l;
  }
}
