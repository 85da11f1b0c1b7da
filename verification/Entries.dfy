/** The entries and log nodes the reducer reads, as the schema validator leaves them. */
module Entries {
  import opened Results
  import EntryIds

  /** The four types whose entries are stored as browsable rows. */
  datatype EntryType = Knowledge | Task | Skill | Message

  function TypeName(t: EntryType): string {
    match t
    case Knowledge => "knowledge"
    case Task => "task"
    case Skill => "skill"
    case Message => "message"
  }

  datatype Status = Open | Claimed | Complete

  datatype TaskPayload = TaskPayload(
    title: string,
    description: Option<string>,
    status: Status,
    claimedBy: Option<string>,
    result: Option<string>,
    assignedTo: Option<string>)

  datatype Content =
    | KnowledgeContent(text: string)
    | TaskContent(task: TaskPayload)
    | SkillContent(text: string)
    | MessageContent(text: string)

  function TypeOf(c: Content): EntryType {
    match c
    case KnowledgeContent(_) => Knowledge
    case TaskContent(_) => Task
    case SkillContent(_) => Skill
    case MessageContent(_) => Message
  }

  /** `SetInfo` fields: `None` when absent, `Some(None)` when null. */
  datatype Body =
    | AddWriter(key: string, indexer: bool)
    | RemoveWriter(key: string)
    | SetInfo(name: Option<Option<string>>, purpose: Option<Option<string>>)
    | InviteRedeemed(nonce: string, redeemedBy: string)
    | Post(content: Content)

  datatype Entry = Entry(body: Body, timestamp: string, agentId: string, displayName: Option<string>, refs: seq<string>)

  /** A stored row: the entry with its id. */
  datatype Stored = Stored(id: string, entry: Entry)

  datatype Reason =
    | NotAnObject | UnknownType | Schema | PayloadTooLarge
    | NoWriterKey | AgentMismatch
    | AdminFromNonIndexer | InviteFromNonIndexer | InviteAlreadySpent

  /** What validation makes of a node's value. */
  datatype Checked = Refused(reason: Reason) | Accepted(entry: Entry)

  datatype RawNode = RawNode(value: Checked, writerKey: Option<string>, length: Option<nat>)

  predicate Hex(s: string, n: nat) { |s| == n && EntryIds.AllHex(s) }

  predicate ValidBody(b: Body) {
    match b
    case AddWriter(key, _) => Hex(key, 64)
    case RemoveWriter(key) => Hex(key, 64)
    case InviteRedeemed(nonce, joiner) => Hex(nonce, 48) && Hex(joiner, 64)
    case _ => true
  }

  /** What the schemas promise of an accepted entry and autobase of a node. */
  predicate ValidNode(n: RawNode) {
    && (match n.value
        case Refused(r) => r in {NotAnObject, UnknownType, Schema, PayloadTooLarge}
        case Accepted(e) => ValidBody(e.body) && e.timestamp != "" && e.agentId != "")
    && (n.writerKey.Some? ==> Hex(n.writerKey.value, 64))
    && (n.length.Some? ==> n.length.value <= EntryIds.MAX_SAFE_INTEGER)
  }

  type Node = n: RawNode | ValidNode(n) witness RawNode(Refused(Schema), None, None)

  /** The characters JavaScript's `trim` removes. */
  predicate IsSpace(c: char) {
    || '\U{9}' <= c <= '\U{D}' || c == ' ' || c == '\U{A0}' || c == '\U{1680}'
    || '\U{2000}' <= c <= '\U{200A}' || c == '\U{2028}' || c == '\U{2029}'
    || c == '\U{202F}' || c == '\U{205F}' || c == '\U{3000}' || c == '\U{FEFF}'
  }

  function TrimLeft(s: string): string {
    if s != "" && IsSpace(s[0]) then TrimLeft(s[1..]) else s
  }

  function TrimRight(s: string): string {
    if s != "" && IsSpace(s[|s| - 1]) then TrimRight(s[..|s| - 1]) else s
  }

  function Trim(s: string): string { TrimRight(TrimLeft(s)) }

  predicate AllSpace(s: string) { forall i | 0 <= i < |s| :: IsSpace(s[i]) }

  lemma {:induction false} TrimLeftSplits(s: string) returns (space: string)
    ensures AllSpace(space) && s == space + TrimLeft(s)
    ensures TrimLeft(s) != "" ==> !IsSpace(TrimLeft(s)[0])
  {
    if s != "" && IsSpace(s[0]) {
      var rest := TrimLeftSplits(s[1..]);
      space := [s[0]] + rest;
      assert s == [s[0]] + s[1..];
    } else {
      space := "";
    }
  }

  lemma {:induction false} TrimRightSplits(s: string) returns (space: string)
    ensures AllSpace(space) && s == TrimRight(s) + space
    ensures TrimRight(s) != "" ==> !IsSpace(TrimRight(s)[|TrimRight(s)| - 1])
  {
    if s != "" && IsSpace(s[|s| - 1]) {
      var rest := TrimRightSplits(s[..|s| - 1]);
      space := rest + [s[|s| - 1]];
      assert s == s[..|s| - 1] + [s[|s| - 1]];
    } else {
      space := "";
    }
  }

  /** Trimming takes off nothing but space, and all of it at both ends. */
  lemma TrimSplits(s: string) returns (before: string, after: string)
    ensures AllSpace(before) && AllSpace(after) && s == before + Trim(s) + after
    ensures var t := Trim(s); t != "" ==> !IsSpace(t[0]) && !IsSpace(t[|t| - 1])
  {
    before := TrimLeftSplits(s);
    after := TrimRightSplits(TrimLeft(s));
    assert s == before + (Trim(s) + after);
  }

  /** Nothing is left exactly of strings that are all space. */
  lemma TrimIsEmpty(s: string)
    ensures Trim(s) == "" <==> AllSpace(s)
  {
    var before, after := TrimSplits(s);
    if Trim(s) == "" {
      assert s == before + after;
    } else {
      assert s[|before|] == Trim(s)[0];
    }
  }
}
