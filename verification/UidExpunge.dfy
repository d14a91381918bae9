/** UID EXPUNGE from the text of the command to the messages that go: exactly those that are marked
    deleted and whose UID the set lists. */
module UidExpunge {
  import opened Wrappers
  import opened SequenceSet
  import opened SequenceRfc
  import opened Expunge

  /** Some member of the set counts up to this UID; the star is the highest UID in the mailbox. */
  ghost predicate Listed(members: seq<Member>, messages: seq<Message>, uid: nat) {
    exists i :: 0 <= i < |members| && ListsUid(members[i], MaxUid(Uids(messages)), uid)
  }

  /** What the handler computes from the command's text. */
  ghost function SelectedBy(sequence: string, messages: seq<Message>): set<nat>
    requires AllReadable(Parts(sequence), MaxUid(Uids(messages)))
  {
    CodeUids(Parts(sequence), MaxUid(Uids(messages)))
  }

  /** For any readable set, part by part. */
  lemma UidExpungeIsExact(messages: seq<Message>, sequence: string, k: nat, m: Message)
    requires AllReadable(Parts(sequence), MaxUid(Uids(messages)))
    ensures var uids := Some(SelectedBy(sequence, messages));
            && (k in Positions(messages, uids)
                <==> && 1 <= k <= |messages| && messages[k - 1].deleted
                     && CountedByAPart(sequence, messages, messages[k - 1].uid))
            && (m in Survivors(messages, uids)
                <==> m in messages && (m.deleted ==> !CountedByAPart(sequence, messages, m.uid)))
  {
    hide *;
    ExpungedExactly(messages, Some(SelectedBy(sequence, messages)), k, m);
    SelectedIffCounted(sequence, messages, m.uid);
    if 1 <= k <= |messages| {
      SelectedIffCounted(sequence, messages, messages[k - 1].uid);
    }
  }

  /** Some part of the set counts up to this UID. */
  ghost predicate CountedByAPart(sequence: string, messages: seq<Message>, uid: nat)
    requires AllReadable(Parts(sequence), MaxUid(Uids(messages)))
  {
    var parts, maxUid := Parts(sequence), MaxUid(Uids(messages));
    exists i :: 0 <= i < |parts| && Upwards(UidRange(parts[i], maxUid).value, uid)
  }

  lemma SelectedIffCounted(sequence: string, messages: seq<Message>, uid: nat)
    requires AllReadable(Parts(sequence), MaxUid(Uids(messages)))
    ensures uid in SelectedBy(sequence, messages) <==> CountedByAPart(sequence, messages, uid)
  {
    hide Parts, CodeUids, UidRange, Upwards;
    CodeUidsHold(Parts(sequence), MaxUid(Uids(messages)), uid);
  }

  /** For text of the RFC's grammar, in terms of its numbers and stars: a message is announced and
      deleted exactly when it is marked and listed, and stays exactly when it is not. */
  lemma OnlyListedMessagesGo(messages: seq<Message>, members: seq<Member>, k: nat, m: Message)
    requires members != [] && forall i :: 0 <= i < |members| ==> Grammatical(members[i])
    ensures AllReadable(Parts(SetText(members)), MaxUid(Uids(messages)))
    ensures var uids := Some(SelectedBy(SetText(members), messages));
            && (k in Positions(messages, uids)
                <==> 1 <= k <= |messages| && messages[k - 1].deleted && Listed(members, messages, messages[k - 1].uid))
            && (m in Survivors(messages, uids)
                <==> m in messages && (m.deleted ==> !Listed(members, messages, m.uid)))
  {
    hide Parts, CodeUids, Positions, Survivors, ListsUid, SetText, Grammatical;
    var maxUid := MaxUid(Uids(messages));
    ParsedUidSet(members, maxUid, m.uid);
    ExpungedExactly(messages, Some(SelectedBy(SetText(members), messages)), k, m);
    if 1 <= k <= |messages| {
      ParsedUidSet(members, maxUid, messages[k - 1].uid);
    }
  }

  /** `UID EXPUNGE 1` in a mailbox of two marked messages with the UIDs 1 and 2: the second stays. */
  lemma UnlistedMessageStays(first: Message, second: Message)
    requires first.deleted && second.deleted && first.uid == 1 && second.uid == 2
    ensures var messages, members := [first, second], [Single(Number(1))];
            && AllReadable(Parts(SetText(members)), MaxUid(Uids(messages)))
            && var uids := Some(SelectedBy(SetText(members), messages));
               1 in Positions(messages, uids) && 2 !in Positions(messages, uids) && second in Survivors(messages, uids)
  {
    hide Parts, CodeUids, Positions, Survivors, SetText;
    var messages, members := [first, second], [Single(Number(1))];
    OnlyListedMessagesGo(messages, members, 1, second);
    OnlyListedMessagesGo(messages, members, 2, second);
    assert ListsUid(members[0], MaxUid(Uids(messages)), 1);
    assert !Listed(members, messages, 2);
  }
}
