/**
 * The attribute dictionary of a stored entry, keyed by the names Python
 * gives private attributes of `UserEntry` (`_UserEntry__userid`, ...), and
 * the proof that `load_dict` reads such a dictionary back into the entry.
 */
module UserKeys {
  import opened Wrappers
  import opened Strings
  import opened Users

  /** The stored name of the attribute behind each field. */
  function AttributeName(f: Field): (k: string)
    ensures k == "_UserEntry" + Pattern(f)
  {
    match f
    case UserIdField => "_UserEntry__userid"
    case NameField => "_UserEntry__name"
    case TypeField => "_UserEntry__user_type"
    case PubKeyField => "_UserEntry__pubkey"
    case LendingField => "_UserEntry__lending_booklist"
    case NoteField => "_UserEntry__note"
  }

  /** The stored attribute behind field `f` of `e`. */
  function Attribute(e: UserEntry, f: Field): (string, Value)
  {
    (AttributeName(f), FieldOf(e, f))
  }

  /** The fields in the order the constructor assigns them. */
  const AllFields: seq<Field> := [UserIdField, NameField, TypeField, PubKeyField, LendingField, NoteField]

  /** The stored attributes behind the fields `fs` of `e`. */
  function AttributesOf(e: UserEntry, fs: seq<Field>): seq<(string, Value)>
    decreases |fs|
  {
    if fs == [] then [] else [Attribute(e, fs[0])] + AttributesOf(e, fs[1..])
  }

  /** The attribute dictionary of an entry. */
  function Attributes(e: UserEntry): seq<(string, Value)>
  {
    AttributesOf(e, AllFields)
  }

  /** The stored name of the name field holds the pattern of no field before it in the chain. */
  lemma NameKeyLacksEarlier(g: Field)
    requires Rank(g) < Rank(NameField)
    ensures !Contains(AttributeName(NameField), Pattern(g))
  {
    var s, p := AttributeName(NameField), Pattern(g);
    match g
    case UserIdField =>
      forall i | 0 <= i <= |s| - |p|
        ensures MismatchAt(s, p, 1, i)
      {
      }
      Absent(s, p, 1);
  }

  /** The stored name of the type field holds the pattern of no field before it in the chain. */
  lemma TypeKeyLacksEarlier(g: Field)
    requires Rank(g) < Rank(TypeField)
    ensures !Contains(AttributeName(TypeField), Pattern(g))
  {
    var s, p := AttributeName(TypeField), Pattern(g);
    match g
    case UserIdField =>
      forall i | 0 <= i <= |s| - |p|
        ensures MismatchAt(s, p, 6, i)
      {
      }
      Absent(s, p, 6);
    case NameField =>
      forall i | 0 <= i <= |s| - |p|
        ensures MismatchAt(s, p, 3, i)
      {
      }
      Absent(s, p, 3);
  }

  /** The stored name of the pubkey field holds the pattern of no field before it in the chain. */
  lemma PubKeyKeyLacksEarlier(g: Field)
    requires Rank(g) < Rank(PubKeyField)
    ensures !Contains(AttributeName(PubKeyField), Pattern(g))
  {
    var s, p := AttributeName(PubKeyField), Pattern(g);
    match g
    case UserIdField =>
      forall i | 0 <= i <= |s| - |p|
        ensures MismatchAt(s, p, 2, i)
      {
      }
      Absent(s, p, 2);
    case NameField =>
      forall i | 0 <= i <= |s| - |p|
        ensures MismatchAt(s, p, 3, i)
      {
      }
      Absent(s, p, 3);
    case TypeField =>
      forall i | 0 <= i <= |s| - |p|
        ensures MismatchAt(s, p, 1, i)
      {
      }
      Absent(s, p, 1);
  }

  /** The stored name of the lending field holds the pattern of no field before it in the chain. */
  lemma LendingKeyLacksEarlier(g: Field)
    requires Rank(g) < Rank(LendingField)
    ensures !Contains(AttributeName(LendingField), Pattern(g))
  {
    var s, p := AttributeName(LendingField), Pattern(g);
    match g
    case UserIdField =>
      forall i | 0 <= i <= |s| - |p|
        ensures MismatchAt(s, p, 2, i)
      {
      }
      Absent(s, p, 2);
    case NameField =>
      forall i | 0 <= i <= |s| - |p|
        ensures MismatchAt(s, p, 3, i)
      {
      }
      Absent(s, p, 3);
    case TypeField =>
      forall i | 0 <= i <= |s| - |p|
        ensures MismatchAt(s, p, 2, i)
      {
      }
      Absent(s, p, 2);
    case PubKeyField =>
      forall i | 0 <= i <= |s| - |p|
        ensures MismatchAt(s, p, 2, i)
      {
      }
      Absent(s, p, 2);
  }

  /** The stored name of the note field holds the pattern of no field before it in the chain. */
  lemma NoteKeyLacksEarlier(g: Field)
    requires Rank(g) < Rank(NoteField)
    ensures !Contains(AttributeName(NoteField), Pattern(g))
  {
    var s, p := AttributeName(NoteField), Pattern(g);
    match g
    case UserIdField =>
      forall i | 0 <= i <= |s| - |p|
        ensures MismatchAt(s, p, 1, i)
      {
      }
      Absent(s, p, 1);
    case NameField =>
      forall i | 0 <= i <= |s| - |p|
        ensures MismatchAt(s, p, 3, i)
      {
      }
      Absent(s, p, 3);
    case TypeField =>
      forall i | 0 <= i <= |s| - |p|
        ensures MismatchAt(s, p, 1, i)
      {
      }
      Absent(s, p, 1);
    case PubKeyField =>
      forall i | 0 <= i <= |s| - |p|
        ensures MismatchAt(s, p, 1, i)
      {
      }
      Absent(s, p, 1);
    case LendingField =>
      TooShort(s, p);
  }

  /** Each stored attribute name is recognised as its own field. */
  lemma ClassifyAttributeName(f: Field)
    ensures Classify(AttributeName(f)) == Some(f)
  {
    ContainsSuffix("_UserEntry", Pattern(f));
    forall g | Rank(g) < Rank(f)
      ensures !Contains(AttributeName(f), Pattern(g))
    {
      match f
      case NameField => NameKeyLacksEarlier(g);
      case TypeField => TypeKeyLacksEarlier(g);
      case PubKeyField => PubKeyKeyLacksEarlier(g);
      case LendingField => LendingKeyLacksEarlier(g);
      case NoteField => NoteKeyLacksEarlier(g);
    }
  }

  /** `p` with field `f` taken from `e`. */
  function Record(p: Partial, e: UserEntry, f: Field): Partial
  {
    match f
    case UserIdField => p.(uid := Some(e.userid))
    case NameField => p.(name := Some(e.name))
    case TypeField => p.(userType := Some(e.userType))
    case PubKeyField => p.(pubkey := Some(e.pubkey))
    case LendingField => p.(lending := Some(e.lending))
    case NoteField => p.(note := Some(e.note))
  }

  /** A stored attribute is read into its own variable. */
  lemma AbsorbAttribute(p: Partial, e: UserEntry, f: Field)
    ensures Absorb(p, Attribute(e, f).0, Attribute(e, f).1) == Success(Record(p, e, f))
  {
    ClassifyAttributeName(f);
    TypeCodes(0, e.userType);
  }

  /** `p` with the fields `fs` taken from `e`. */
  function RecordAll(p: Partial, e: UserEntry, fs: seq<Field>): Partial
    decreases |fs|
  {
    if fs == [] then p else RecordAll(Record(p, e, fs[0]), e, fs[1..])
  }

  /** Reading stored attributes sets exactly their variables, from the entry. */
  lemma {:induction false} GatherAttributes(p: Partial, e: UserEntry, fs: seq<Field>)
    ensures Gather(p, AttributesOf(e, fs)) == Success(RecordAll(p, e, fs))
    decreases |fs|
  {
    if fs != [] {
      AbsorbAttribute(p, e, fs[0]);
      var a := AttributesOf(e, fs);
      assert a[0] == Attribute(e, fs[0]) && a[1..] == AttributesOf(e, fs[1..]);
      GatherAttributes(Record(p, e, fs[0]), e, fs[1..]);
    }
  }

  /** Loading the attribute dictionary of an entry gives the entry back. */
  lemma LoadDictAttributes(e: UserEntry)
    ensures LoadDict(Attributes(e)) == Success(e)
  {
    GatherAttributes(Unset, e, AllFields);
    var p := RecordAll(Unset, e, AllFields);
    assert p == Partial(Some(e.userid), Some(e.name), Some(e.userType), Some(e.pubkey), Some(e.lending), Some(e.note));
  }
}
