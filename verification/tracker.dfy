/** The CTF event tracker: the plugin's persisted store of CTF records and the
    commands that read and extend it.

    The plugin's persistent storage is a key/value map; the tracker keeps its
    records under one key as a list in creation order. The `addctf` and
    `ctf_status` commands are pure transitions from the storage before the
    command to the storage after it, paired with the reply the command
    produces (a text, no text, or a raised Python exception); activation maps
    the storage to the new storage.
 */
module Tracker {
  import opened Options
  import opened Rooms

  /** Storage key of the CTF list. */
  const CtfKey: string := "CTFS"

  /** Reply of `addctf` when no name is given. */
  const Usage: string := "usage: !ctf add <ctf_name>"

  /** The fixed reply of `ctf_status`. */
  const StatusText: string := "It *works* ! <#585874178989752321>"

  /** Message of the error raised when the category room cannot hold sub-channels. */
  const NoSubchannels: string := "We need an object that supports creating sub-channels"

  /** One CTF event. The plugin never adds a challenge, so the element type of
      `challenges` is immaterial; it is kept as a list of names. */
  datatype Ctf = Ctf(name: string, challenges: seq<string>, generalRoom: Room, category: Room)

  /** The plugin's persistent key/value storage. */
  type Storage = map<string, seq<Ctf>>

  /** The Python exceptions a command can raise. */
  datatype PyError = RuntimeError(message: string) | KeyError(key: string)

  /** What a command hands back to the chat: a text, nothing (Python `None`),
      or an exception. */
  datatype Reply = Text(text: string) | NoReply | Raised(error: PyError)

  /** The storage after a command together with the command's reply. */
  datatype Step = Step(storage: Storage, reply: Reply)

  /** Identifier of the category room of the CTF called `name`. */
  function CategoryId(name: string): string
  {
    "##" + name
  }

  /** Identifier of the general room of the CTF called `name`. */
  function GeneralId(name: string): string
  {
    name + "-general"
  }

  /** What a CTF record created by `addctf` for `name` looks like. */
  predicate CreatedFor(c: Ctf, name: string)
  {
    && c.name == name
    && c.challenges == []
    && c.category.id == CategoryId(name)
    && c.generalRoom.id == GeneralId(name)
    && c.generalRoom.parent == Some(c.category.id)
  }

  /** Every record of a CTF list was created by `addctf` for a non-empty name. */
  predicate WellFormed(store: seq<Ctf>)
  {
    forall i | 0 <= i < |store| :: store[i].name != "" && CreatedFor(store[i], store[i].name)
  }

  /** The storage's CTF list, when present, is well formed. */
  predicate WellFormedStorage(s: Storage)
  {
    CtfKey in s ==> WellFormed(s[CtfKey])
  }

  /** The names of a CTF list, in order. */
  function Names(store: seq<Ctf>): (r: seq<string>)
    ensures |r| == |store|
    ensures forall i | 0 <= i < |store| :: r[i] == store[i].name
  {
    seq(|store|, i requires 0 <= i < |store| => store[i].name)
  }

  /** The CTF constructor. */
  function NewCtf(name: string, category: Room, generalRoom: Room): (c: Ctf)
    ensures c.challenges == []
    ensures c.name == name && c.category == category && c.generalRoom == generalRoom
  {
    Ctf(name, [], generalRoom, category)
  }

  /** Plugin activation: create the empty CTF list unless one is stored. */
  function Activate(s: Storage): (r: Storage)
    ensures CtfKey in r
    ensures CtfKey in s ==> r == s
    ensures CtfKey !in s ==> r[CtfKey] == []
    ensures forall k | k in s :: k in r && r[k] == s[k]
    ensures r.Keys == s.Keys + {CtfKey}
  {
    if CtfKey in s then s else s[CtfKey := []]
  }

  /** Activating twice is activating once. */
  lemma ActivateIdempotent(s: Storage)
    ensures Activate(Activate(s)) == Activate(s)
  {
  }

  /** The `ctf_status` command: walks the CTF list and answers a fixed text. */
  function CtfStatus(s: Storage): (r: Step)
    ensures r.storage == s
    ensures CtfKey in s ==> r.reply == Text(StatusText)
    ensures CtfKey !in s ==> r.reply == Raised(KeyError(CtfKey))
  {
    if CtfKey in s then Step(s, Text(StatusText)) else Step(s, Raised(KeyError(CtfKey)))
  }

  /** The reply of `ctf_status` does not depend on which CTFs are stored. */
  lemma CtfStatusIgnoresRecords(s1: Storage, s2: Storage)
    requires CtfKey in s1 && CtfKey in s2
    ensures CtfStatus(s1).reply == CtfStatus(s2).reply
  {
  }

  /** True when `addctf` gets past every check for `name` on storage `s`. */
  predicate AddSucceeds(s: Storage, name: string, b: Backend)
  {
    name != "" && QueryRoom(b, CategoryId(name)).nestable && CtfKey in s
  }

  /** The `addctf` command. */
  function AddCtf(s: Storage, name: string, b: Backend): (r: Step)
    ensures name == "" ==> r == Step(s, Text(Usage))
    ensures name != "" && !QueryRoom(b, CategoryId(name)).nestable ==>
              r == Step(s, Raised(RuntimeError(NoSubchannels)))
    ensures name != "" && QueryRoom(b, CategoryId(name)).nestable && CtfKey !in s ==>
              r == Step(s, Raised(KeyError(CtfKey)))
    ensures r.reply == NoReply <==> AddSucceeds(s, name, b)
    ensures r.reply != NoReply ==> r.storage == s
    ensures r.reply == NoReply ==>
              && r.storage.Keys == s.Keys
              && (forall k | k in s && k != CtfKey :: r.storage[k] == s[k])
              && |r.storage[CtfKey]| == |s[CtfKey]| + 1
              && r.storage[CtfKey][..|s[CtfKey]|] == s[CtfKey]
              && CreatedFor(r.storage[CtfKey][|s[CtfKey]|], name)
              && r.storage[CtfKey][|s[CtfKey]|].category == QueryRoom(b, CategoryId(name))
  {
    if name == "" then
      Step(s, Text(Usage))
    else
      var category := QueryRoom(b, CategoryId(name));
      match CreateSubchannel(b, category, GeneralId(name))
      case Unsupported =>
        Step(s, Raised(RuntimeError(NoSubchannels)))
      case Created(general) =>
        if CtfKey !in s then
          Step(s, Raised(KeyError(CtfKey)))
        else
          Step(s[CtfKey := s[CtfKey] + [NewCtf(name, category, general)]], NoReply)
  }

  /** Once the plugin is activated, `addctf` never fails for a missing CTF list. */
  lemma AddCtfAfterActivate(s: Storage, name: string, b: Backend)
    ensures AddCtf(Activate(s), name, b).reply != Raised(KeyError(CtfKey))
  {
  }

  /** `addctf` keeps every stored record well formed. */
  lemma AddCtfPreservesWellFormed(s: Storage, name: string, b: Backend)
    requires WellFormedStorage(s)
    ensures WellFormedStorage(AddCtf(s, name, b).storage)
  {
  }

  /** No duplicate check: adding a name that is already stored succeeds and
      leaves two records with that name. */
  lemma AddCtfAllowsDuplicateNames(s: Storage, name: string, b: Backend, j: nat)
    requires AddSucceeds(s, name, b)
    requires j < |s[CtfKey]| && s[CtfKey][j].name == name
    ensures var after := AddCtf(s, name, b).storage[CtfKey];
            after[j].name == name && after[|after| - 1].name == name && j != |after| - 1
  {
  }

  /** The commands of the tracker, as a script. */
  datatype Command = ActivateCmd | StatusCmd | AddCtfCmd(name: string)

  /** The storage after running a command. */
  function Apply(s: Storage, c: Command, b: Backend): Storage
  {
    match c
    case ActivateCmd => Activate(s)
    case StatusCmd => CtfStatus(s).storage
    case AddCtfCmd(name) => AddCtf(s, name, b).storage
  }

  /** The storage after running a script of commands in order. */
  function Run(s: Storage, cmds: seq<Command>, b: Backend): Storage
    decreases |cmds|
  {
    if cmds == [] then s else Run(Apply(s, cmds[0], b), cmds[1..], b)
  }

  /** The names a script adds to an activated store, in order: those of the
      `addctf` commands that pass both checks. */
  function AddedNames(cmds: seq<Command>, b: Backend): seq<string>
    decreases |cmds|
  {
    if cmds == [] then []
    else
      var c := cmds[0];
      var here := if c.AddCtfCmd? && c.name != "" && QueryRoom(b, CategoryId(c.name)).nestable
                  then [c.name] else [];
      here + AddedNames(cmds[1..], b)
  }

  /** One command on an activated store: the list either stays or gains the
      record `addctf` made, and the added names are those `AddedNames` predicts. */
  lemma ApplyAppends(s: Storage, c: Command, b: Backend)
    requires CtfKey in s
    ensures var s' := Apply(s, c, b);
            && CtfKey in s'
            && |s[CtfKey]| <= |s'[CtfKey]|
            && s'[CtfKey][..|s[CtfKey]|] == s[CtfKey]
            && Names(s'[CtfKey]) == Names(s[CtfKey]) + AddedNames([c], b)
  {
  }

  /** Over any script, the stored list only grows at its end: every earlier
      record stays unchanged and in place, and the names appended are exactly
      the names of the successful `addctf` commands, in order. */
  lemma {:induction false} RunAppendOnly(s: Storage, cmds: seq<Command>, b: Backend)
    requires CtfKey in s
    ensures var s' := Run(s, cmds, b);
            && CtfKey in s'
            && |s[CtfKey]| <= |s'[CtfKey]|
            && s'[CtfKey][..|s[CtfKey]|] == s[CtfKey]
            && Names(s'[CtfKey]) == Names(s[CtfKey]) + AddedNames(cmds, b)
    decreases |cmds|
  {
    if cmds != [] {
      var mid := Apply(s, cmds[0], b);
      ApplyAppends(s, cmds[0], b);
      RunAppendOnly(mid, cmds[1..], b);
      var fin := Run(s, cmds, b);
      assert fin == Run(mid, cmds[1..], b);
      var n := |s[CtfKey]|;
      var m := |mid[CtfKey]|;
      assert fin[CtfKey][..n] == fin[CtfKey][..m][..n];
      assert AddedNames(cmds, b) == AddedNames([cmds[0]], b) + AddedNames(cmds[1..], b) by {
        assert AddedNames([cmds[0]], b) == (if cmds[0].AddCtfCmd? && cmds[0].name != ""
                                               && QueryRoom(b, CategoryId(cmds[0].name)).nestable
                                            then [cmds[0].name] else []) + AddedNames([], b);
      }
    }
  }

  /** Every storage reachable by a script from a well-formed one is well formed. */
  lemma {:induction false} RunPreservesWellFormed(s: Storage, cmds: seq<Command>, b: Backend)
    requires WellFormedStorage(s)
    ensures WellFormedStorage(Run(s, cmds, b))
    decreases |cmds|
  {
    if cmds != [] {
      if cmds[0].AddCtfCmd? {
        AddCtfPreservesWellFormed(s, cmds[0].name, b);
      }
      RunPreservesWellFormed(Apply(s, cmds[0], b), cmds[1..], b);
    }
  }
}
