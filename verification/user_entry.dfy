/**
 * The user record of the book library (`UserEntry`): an identity compared and
 * ordered by user id, a user type, and the list of ids of the books the user
 * has borrowed. Updates are pure functions returning the new record.
 */
module Users {
  import opened Wrappers
  import opened Strings

  /** `UserType`: the four kinds of user. */
  datatype UserType = User | Manager | Admin | Disable

  /** The integer each user type stands for. */
  function Code(t: UserType): int
  {
    match t
    case User => 1000
    case Manager => 2000
    case Admin => 3000
    case Disable => 4000
  }

  /**
   * `UserType(code)`: the type whose integer is `code`; there is none for
   * any other integer, where Python raises ValueError.
   */
  function TypeOf(code: int): (r: Option<UserType>)
    ensures r.Some? ==> Code(r.value) == code
    ensures r.None? ==> forall t :: Code(t) != code
  {
    if code == 1000 then Some(User)
    else if code == 2000 then Some(Manager)
    else if code == 3000 then Some(Admin)
    else if code == 4000 then Some(Disable)
    else None
  }

  /** Exactly four integers name a user type, and each type is found again from its integer. */
  lemma TypeCodes(code: int, t: UserType)
    ensures TypeOf(code).Some? <==> code == 1000 || code == 2000 || code == 3000 || code == 4000
    ensures TypeOf(Code(t)) == Some(t)
  {
  }

  /** A value as it may appear in a stored attribute dictionary. */
  datatype Value = Int(i: int) | Str(s: string) | IntList(xs: seq<int>) | Null

  /** `UserEntry`. The public key is kept as the text it is built from. */
  datatype UserEntry = UserEntry(
    userid: int,
    name: string,
    userType: UserType,
    pubkey: string,
    lending: seq<int>,  // ids of the borrowed books, in the order they were lent
    note: Value)

  /** `UserEntry.new`: a plain user who has borrowed nothing. */
  function New(uid: int, name: string, pubkey: string, note: Value): (e: UserEntry)
    ensures e.userType == User && e.lending == []
    ensures e.userid == uid && e.name == name && e.pubkey == pubkey && e.note == note
  {
    UserEntry(uid, name, User, pubkey, [], note)
  }

  /** The attributes `load_dict` recognises, in the order it tests for them. */
  datatype Field = UserIdField | NameField | TypeField | PubKeyField | LendingField | NoteField

  /** Why a record cannot be loaded. */
  datatype LoadError =
    | BadUserType(code: int)        // `UserType(code)` raises ValueError
    | NotAnInteger(key: string)     // `int(val)` on a value that is not an integer
    | NotAString(key: string)       // a name or public key that is not text
    | NotAList(key: string)         // `list(val)` on a value that is not a list of ids
    | MissingField(field: Field)    // the local variable was never assigned

  /** `UserEntry.load`: the stored integer must name a user type; everything else is taken as given. */
  function Load(uid: int, name: string, utype: int, pubkey: string, lending: seq<int>, note: Value)
    : (r: Result<UserEntry, LoadError>)
    ensures r.Success? <==> utype == 1000 || utype == 2000 || utype == 3000 || utype == 4000
    ensures r.Success? ==> Code(r.value.userType) == utype && r.value.userid == uid && r.value.name == name
                           && r.value.pubkey == pubkey && r.value.lending == lending && r.value.note == note
    ensures r.Failure? ==> r.error == BadUserType(utype)
  {
    match TypeOf(utype)
    case None => Failure(BadUserType(utype))
    case Some(t) => Success(UserEntry(uid, name, t, pubkey, lending, note))
  }

  /** The substring `load_dict` looks for in a key to recognise a field. */
  function Pattern(f: Field): string
  {
    match f
    case UserIdField => "__userid"
    case NameField => "__name"
    case TypeField => "__user_type"
    case PubKeyField => "__pubkey"
    case LendingField => "__lending_booklist"
    case NoteField => "__note"
  }

  /** Position of a field in the `if`/`elif` chain. */
  function Rank(f: Field): nat
  {
    match f
    case UserIdField => 0
    case NameField => 1
    case TypeField => 2
    case PubKeyField => 3
    case LendingField => 4
    case NoteField => 5
  }

  /**
   * The field a key stands for: the first in chain order whose pattern the
   * key contains, or none when the key contains no pattern at all.
   */
  function Classify(key: string): (r: Option<Field>)
    ensures r.Some? ==> Contains(key, Pattern(r.value))
    ensures r.Some? ==> forall g :: Rank(g) < Rank(r.value) ==> !Contains(key, Pattern(g))
    ensures r.None? <==> forall f :: !Contains(key, Pattern(f))
  {
    if Contains(key, "__userid") then Some(UserIdField)
    else if Contains(key, "__name") then Some(NameField)
    else if Contains(key, "__user_type") then Some(TypeField)
    else if Contains(key, "__pubkey") then Some(PubKeyField)
    else if Contains(key, "__lending_booklist") then Some(LendingField)
    else if Contains(key, "__note") then Some(NoteField)
    else None
  }

  /** The local variables of `load_dict`, each unset until a key assigns it. */
  datatype Partial = Partial(
    uid: Option<int>,
    name: Option<string>,
    userType: Option<UserType>,
    pubkey: Option<string>,
    lending: Option<seq<int>>,
    note: Option<Value>)

  const Unset := Partial(None, None, None, None, None, None)

  /** One turn of the loop: assign the variable the key names, converting the value. */
  function Absorb(p: Partial, key: string, v: Value): Result<Partial, LoadError>
  {
    match Classify(key)
    case None => Success(p)
    case Some(UserIdField) =>
      if v.Int? then Success(p.(uid := Some(v.i))) else Failure(NotAnInteger(key))
    case Some(NameField) =>
      if v.Str? then Success(p.(name := Some(v.s))) else Failure(NotAString(key))
    case Some(TypeField) =>
      if !v.Int? then Failure(NotAnInteger(key))
      else if TypeOf(v.i).None? then Failure(BadUserType(v.i))
      else Success(p.(userType := TypeOf(v.i)))
    case Some(PubKeyField) =>
      if v.Str? then Success(p.(pubkey := Some(v.s))) else Failure(NotAString(key))
    case Some(LendingField) =>
      if v.IntList? then Success(p.(lending := Some(v.xs))) else Failure(NotAList(key))
    case Some(NoteField) => Success(p.(note := Some(v)))
  }

  /** The `for atr, val in d.items()` loop, stopping at the first value that does not convert. */
  function Gather(p: Partial, items: seq<(string, Value)>): Result<Partial, LoadError>
    decreases |items|
  {
    if items == [] then Success(p)
    else
      match Absorb(p, items[0].0, items[0].1)
      case Failure(e) => Failure(e)
      case Success(q) => Gather(q, items[1..])
  }

  /** The final `cls(uid, name, ...)`: the first unset variable, in argument order, is an error. */
  function Finish(p: Partial): Result<UserEntry, LoadError>
  {
    if p.uid.None? then Failure(MissingField(UserIdField))
    else if p.name.None? then Failure(MissingField(NameField))
    else if p.userType.None? then Failure(MissingField(TypeField))
    else if p.pubkey.None? then Failure(MissingField(PubKeyField))
    else if p.lending.None? then Failure(MissingField(LendingField))
    else if p.note.None? then Failure(MissingField(NoteField))
    else Success(UserEntry(p.uid.value, p.name.value, p.userType.value, p.pubkey.value, p.lending.value, p.note.value))
  }

  /** Some key of the dictionary names field `f`. */
  predicate Named(items: seq<(string, Value)>, f: Field)
  {
    exists i :: 0 <= i < |items| && Classify(items[i].0) == Some(f)
  }

  /** A field whose variable was assigned while reading `items` is named by one of their keys. */
  lemma {:induction false} AssignedIsNamed(p: Partial, f: Field, items: seq<(string, Value)>)
    ensures Gather(p, items).Success? && !SameSlot(Gather(p, items).value, p, f) ==> Named(items, f)
    decreases |items|
  {
    if items != [] && Absorb(p, items[0].0, items[0].1).Success? {
      if Classify(items[0].0) == Some(f) {
        assert Classify(items[0].0) == Some(f);
      } else {
        var q := Absorb(p, items[0].0, items[0].1).value;
        assert SameSlot(q, p, f);
        AssignedIsNamed(q, f, items[1..]);
        if Gather(q, items[1..]).Success? && !SameSlot(Gather(q, items[1..]).value, q, f) {
          var i :| 0 <= i < |items[1..]| && Classify(items[1..][i].0) == Some(f);
          assert Classify(items[i + 1].0) == Some(f);
        }
      }
    }
  }

  /** Every variable still unassigned after reading `items` belongs to a field none of their keys names. */
  lemma EveryAssignedIsNamed(items: seq<(string, Value)>)
    ensures Gather(Unset, items).Success? ==>
              forall f :: !SameSlot(Gather(Unset, items).value, Unset, f) ==> Named(items, f)
  {
    forall f | Gather(Unset, items).Success? && !SameSlot(Gather(Unset, items).value, Unset, f)
      ensures Named(items, f)
    {
      AssignedIsNamed(Unset, f, items);
    }
  }

  /**
   * `UserEntry.load_dict` over the dictionary's items in iteration order. A
   * dictionary loads only when every field is named by one of its keys: the
   * variable of a field no key names is never assigned.
   */
  function LoadDict(items: seq<(string, Value)>): (r: Result<UserEntry, LoadError>)
    ensures r.Success? ==> forall f :: Named(items, f)
  {
    EveryAssignedIsNamed(items);
    match Gather(Unset, items)
    case Failure(e) => Failure(e)
    case Success(p) => Finish(p)
  }

  /** Reading a dictionary in two parts: the second part starts from where the first stopped. */
  lemma {:induction false} GatherAppend(p: Partial, a: seq<(string, Value)>, b: seq<(string, Value)>)
    ensures Gather(p, a + b) == match Gather(p, a) case Failure(e) => Failure(e) case Success(q) => Gather(q, b)
    decreases |a|
  {
    if a == [] {
      assert a + b == b;
    } else {
      assert (a + b)[0] == a[0];
      assert (a + b)[1..] == a[1..] + b;
      match Absorb(p, a[0].0, a[0].1)
      case Failure(e) =>
      case Success(q) => GatherAppend(q, a[1..], b);
    }
  }

  /** A key that contains none of the six patterns is ignored wherever it appears. */
  lemma IgnoredKey(a: seq<(string, Value)>, key: string, v: Value, b: seq<(string, Value)>)
    requires forall f :: !Contains(key, Pattern(f))
    ensures LoadDict(a + [(key, v)] + b) == LoadDict(a + b)
  {
    GatherAppend(Unset, a, [(key, v)] + b);
    GatherAppend(Unset, a, b);
    assert a + [(key, v)] + b == a + ([(key, v)] + b);
    assert ([(key, v)] + b)[1..] == b;
  }

  /** The values a field accepts. */
  predicate Converts(f: Field, v: Value)
  {
    match f
    case UserIdField => v.Int?
    case NameField => v.Str?
    case TypeField => v.Int? && TypeOf(v.i).Some?
    case PubKeyField => v.Str?
    case LendingField => v.IntList?
    case NoteField => true
  }

  /** A field of an entry, as the dictionary value that holds it. */
  function FieldOf(e: UserEntry, f: Field): Value
  {
    match f
    case UserIdField => Int(e.userid)
    case NameField => Str(e.name)
    case TypeField => Int(Code(e.userType))
    case PubKeyField => Str(e.pubkey)
    case LendingField => IntList(e.lending)
    case NoteField => e.note
  }

  /** A key is absorbed exactly when its value suits the field the key names. */
  lemma AbsorbConverts(p: Partial, key: string, v: Value)
    requires Classify(key).Some?
    ensures Absorb(p, key, v).Success? <==> Converts(Classify(key).value, v)
  {
  }

  /** The local variables apart from the one for field `f`, which is set back to unassigned. */
  function Forget(p: Partial, f: Field): Partial
  {
    match f
    case UserIdField => p.(uid := None)
    case NameField => p.(name := None)
    case TypeField => p.(userType := None)
    case PubKeyField => p.(pubkey := None)
    case LendingField => p.(lending := None)
    case NoteField => p.(note := None)
  }

  /** `p` and `q` hold the same value for field `f`. */
  predicate SameSlot(p: Partial, q: Partial, f: Field)
  {
    match f
    case UserIdField => p.uid == q.uid
    case NameField => p.name == q.name
    case TypeField => p.userType == q.userType
    case PubKeyField => p.pubkey == q.pubkey
    case LendingField => p.lending == q.lending
    case NoteField => p.note == q.note
  }

  /**
   * Whether a key's value converts does not depend on the variables assigned
   * so far, and assigning a field gives variables that differ only there.
   */
  lemma AbsorbRespectsForget(p: Partial, q: Partial, f: Field, key: string, v: Value)
    requires Forget(p, f) == Forget(q, f)
    ensures Absorb(p, key, v).Failure? <==> Absorb(q, key, v).Failure?
    ensures Absorb(p, key, v).Failure? ==> Absorb(p, key, v) == Absorb(q, key, v)
    ensures Absorb(p, key, v).Success? ==> Forget(Absorb(p, key, v).value, f) == Forget(Absorb(q, key, v).value, f)
    ensures Classify(key) == Some(f) ==> Absorb(p, key, v) == Absorb(q, key, v)
  {
  }

  /**
   * Reading the same items from two starting points that differ only in one
   * field: both fail alike, or both succeed and still differ only there.
   */
  lemma {:induction false} GatherRespectsForget(p: Partial, q: Partial, f: Field, items: seq<(string, Value)>)
    requires Forget(p, f) == Forget(q, f)
    ensures Gather(p, items).Failure? <==> Gather(q, items).Failure?
    ensures Gather(p, items).Failure? ==> Gather(p, items) == Gather(q, items)
    ensures Gather(p, items).Success? ==> Forget(Gather(p, items).value, f) == Forget(Gather(q, items).value, f)
    decreases |items|
  {
    if items != [] {
      AbsorbRespectsForget(p, q, f, items[0].0, items[0].1);
      if Absorb(p, items[0].0, items[0].1).Success? {
        GatherRespectsForget(Absorb(p, items[0].0, items[0].1).value, Absorb(q, items[0].0, items[0].1).value, f, items[1..]);
      }
    }
  }

  /** Items none of whose keys names field `f` leave that field as it was. */
  lemma {:induction false} GatherKeepsSlot(p: Partial, f: Field, items: seq<(string, Value)>)
    requires forall i :: 0 <= i < |items| ==> Classify(items[i].0) != Some(f)
    ensures Gather(p, items).Success? ==> SameSlot(Gather(p, items).value, p, f)
    decreases |items|
  {
    if items != [] && Absorb(p, items[0].0, items[0].1).Success? {
      var q := Absorb(p, items[0].0, items[0].1).value;
      assert Classify(items[0].0) != Some(f);
      assert SameSlot(q, p, f);
      GatherKeepsSlot(q, f, items[1..]);
    }
  }

  /**
   * The last key naming a field decides that field of the loaded entry,
   * whatever came before it and whatever keys naming other fields follow it.
   */
  lemma LastKeyWins(a: seq<(string, Value)>, key: string, v: Value, b: seq<(string, Value)>)
    requires Classify(key).Some?
    requires forall i :: 0 <= i < |b| ==> Classify(b[i].0) != Classify(key)
    ensures var r := LoadDict(a + [(key, v)] + b);
            r.Success? ==> FieldOf(r.value, Classify(key).value) == v
  {
    var f := Classify(key).value;
    assert a + [(key, v)] + b == a + ([(key, v)] + b);
    GatherAppend(Unset, a, [(key, v)] + b);
    if Gather(Unset, a).Success? {
      var q := Gather(Unset, a).value;
      assert ([(key, v)] + b)[1..] == b;
      if Absorb(q, key, v).Success? {
        var q1 := Absorb(q, key, v).value;
        GatherKeepsSlot(q1, f, b);
        if Gather(q1, b).Success? {
          SlotDecidesField(Gather(q1, b).value, q, key, v);
        }
      }
    }
  }

  /** Once a key's value has been read into its variable, the entry built from that variable holds the value. */
  lemma SlotDecidesField(r: Partial, q: Partial, key: string, v: Value)
    requires Classify(key).Some? && Absorb(q, key, v).Success?
    requires SameSlot(r, Absorb(q, key, v).value, Classify(key).value)
    ensures Finish(r).Success? ==> FieldOf(Finish(r).value, Classify(key).value) == v
  {
    TypeCodes(0, User);
    if v.Int? {
      TypeCodes(v.i, User);
    }
  }

  /**
   * A later key naming the same field overwrites an earlier one, whatever
   * lies between them: once the earlier value converts, it has no effect on
   * the result.
   */
  lemma LaterKeyOverwrites(a: seq<(string, Value)>, k1: string, v1: Value, mid: seq<(string, Value)>,
                           k2: string, v2: Value, b: seq<(string, Value)>)
    requires Classify(k1).Some? && Classify(k1) == Classify(k2)
    requires Converts(Classify(k1).value, v1)
    ensures LoadDict(a + [(k1, v1)] + mid + [(k2, v2)] + b) == LoadDict(a + mid + [(k2, v2)] + b)
  {
    var f := Classify(k1).value;
    var tail := [(k2, v2)] + b;
    assert a + [(k1, v1)] + mid + [(k2, v2)] + b == a + ([(k1, v1)] + (mid + tail));
    assert a + mid + [(k2, v2)] + b == a + (mid + tail);
    GatherAppend(Unset, a, [(k1, v1)] + (mid + tail));
    GatherAppend(Unset, a, mid + tail);
    if Gather(Unset, a).Success? {
      var q := Gather(Unset, a).value;
      var q1 := Absorb(q, k1, v1).value;
      assert ([(k1, v1)] + (mid + tail))[1..] == mid + tail;
      assert Forget(q1, f) == Forget(q, f);
      GatherAppend(q1, mid, tail);
      GatherAppend(q, mid, tail);
      GatherRespectsForget(q1, q, f, mid);
      if Gather(q, mid).Success? {
        var r1 := Gather(q1, mid).value;
        var r := Gather(q, mid).value;
        AbsorbRespectsForget(r1, r, f, k2, v2);
        assert tail[1..] == b;
      }
    }
  }

  /** A type code that names no user type makes loading fail there, whatever follows. */
  lemma RejectsBadType(a: seq<(string, Value)>, key: string, code: int, b: seq<(string, Value)>)
    requires Gather(Unset, a).Success?
    requires Classify(key) == Some(TypeField)
    requires code != 1000 && code != 2000 && code != 3000 && code != 4000
    ensures LoadDict(a + [(key, Int(code))] + b) == Failure(BadUserType(code))
  {
    assert a + [(key, Int(code))] + b == a + ([(key, Int(code))] + b);
    GatherAppend(Unset, a, [(key, Int(code))] + b);
  }

  // ---------------------------------------------------------------------------
  // Identity and order
  // ---------------------------------------------------------------------------

  /** `__eq__`: two entries are the same user when their ids agree, whatever else differs. */
  predicate Same(a: UserEntry, b: UserEntry)
  {
    a.userid == b.userid
  }

  /** `__lt__`: entries are ordered by user id. */
  predicate Before(a: UserEntry, b: UserEntry)
  {
    a.userid < b.userid
  }

  /** Exactly one of `a < b`, `a == b`, `b < a` holds; equality is an equivalence and `<` a strict order. */
  lemma OrderIsTotal(a: UserEntry, b: UserEntry, c: UserEntry)
    ensures (Before(a, b) && !Same(a, b) && !Before(b, a))
         || (!Before(a, b) && Same(a, b) && !Before(b, a))
         || (!Before(a, b) && !Same(a, b) && Before(b, a))
    ensures Same(a, a) && (Same(a, b) ==> Same(b, a)) && (Same(a, b) && Same(b, c) ==> Same(a, c))
    ensures !Before(a, a) && (Before(a, b) && Before(b, c) ==> Before(a, c))
    ensures Same(a, b) ==> (Before(a, c) <==> Before(b, c))
  {
  }

  // ---------------------------------------------------------------------------
  // The lending list
  // ---------------------------------------------------------------------------

  /** `add_lendinglist`: always succeeds and appends the id at the end. */
  function AddLending(e: UserEntry, bookid: int): (r: (bool, UserEntry))
    ensures r.0
    ensures |r.1.lending| == |e.lending| + 1 && r.1.lending[|e.lending|] == bookid
    ensures r.1.lending[..|e.lending|] == e.lending
    ensures r.1.(lending := e.lending) == e
  {
    (true, e.(lending := e.lending + [bookid]))
  }

  /** Position of the first occurrence of `x`. */
  function IndexOf(s: seq<int>, x: int): (i: nat)
    requires x in s
    ensures i < |s| && s[i] == x && x !in s[..i]
  {
    if s[0] == x then 0
    else
      var j := IndexOf(s[1..], x);
      assert s[..j + 1] == [s[0]] + s[1..][..j];
      j + 1
  }

  /**
   * Python's `list.remove(x)` for a present `x`, and the list unchanged for
   * an absent one.
   */
  function RemoveFirst(s: seq<int>, x: int): seq<int>
    decreases |s|
  {
    if s == [] then []
    else if s[0] == x then s[1..]
    else [s[0]] + RemoveFirst(s[1..], x)
  }

  /**
   * Removal takes out the first occurrence and keeps every other element in
   * order; an absent `x` leaves the list as it was.
   */
  lemma {:induction false} RemoveFirstShape(s: seq<int>, x: int)
    ensures x !in s ==> RemoveFirst(s, x) == s
    ensures x in s ==> RemoveFirst(s, x) == s[..IndexOf(s, x)] + s[IndexOf(s, x) + 1..]
    decreases |s|
  {
    if s != [] && s[0] != x {
      RemoveFirstShape(s[1..], x);
      assert s == [s[0]] + s[1..];
      if x in s {
        var j := IndexOf(s[1..], x);
        assert s[..j + 1] == [s[0]] + s[1..][..j];
        assert s[j + 2..] == s[1..][j + 1..];
      }
    }
  }

  /** Removal takes exactly one copy of a present `x` out of the multiset of elements. */
  lemma {:induction false} RemoveFirstMultiset(s: seq<int>, x: int)
    ensures multiset(RemoveFirst(s, x)) == multiset(s) - multiset{x}
    decreases |s|
  {
    if s != [] {
      assert s == [s[0]] + s[1..];
      if s[0] != x {
        RemoveFirstMultiset(s[1..], x);
        assert multiset(RemoveFirst(s, x)) == multiset{s[0]} + multiset(RemoveFirst(s[1..], x));
      }
    }
  }

  /**
   * `remove_lendinglist`: when the id is lent, its first occurrence is removed
   * and the answer is true; otherwise the answer is false and the entry is
   * unchanged. Nothing but the lending list ever changes.
   */
  function RemoveLending(e: UserEntry, bookid: int): (r: (bool, UserEntry))
    ensures r.0 <==> bookid in e.lending
    ensures r.0 ==> var i := IndexOf(e.lending, bookid);
                    r.1.lending == e.lending[..i] + e.lending[i + 1..]
    ensures !r.0 ==> r.1 == e
    ensures r.1.(lending := e.lending) == e
  {
    RemoveFirstShape(e.lending, bookid);
    if bookid in e.lending then (true, e.(lending := RemoveFirst(e.lending, bookid)))
    else (false, e)
  }

  /** Lending a book and returning it leaves the same books lent, possibly in another order. */
  lemma AddThenRemove(e: UserEntry, bookid: int)
    ensures var added := AddLending(e, bookid).1;
            var removed := RemoveLending(added, bookid);
            removed.0 && multiset(removed.1.lending) == multiset(e.lending)
  {
    var added := AddLending(e, bookid).1;
    assert bookid in added.lending;
    var r := RemoveFirst(added.lending, bookid);
    RemoveFirstMultiset(added.lending, bookid);
    assert multiset(r) == multiset(e.lending) + multiset{bookid} - multiset{bookid};
  }

  /** `set_user_type`: the type changes and nothing else does. */
  function SetUserType(e: UserEntry, t: UserType): (r: UserEntry)
    ensures r.userType == t
    ensures r.userid == e.userid && r.name == e.name && r.pubkey == e.pubkey
    ensures r.lending == e.lending && r.note == e.note
  {
    e.(userType := t)
  }

  /** No update changes which user an entry is. */
  lemma UpdatesKeepIdentity(e: UserEntry, bookid: int, t: UserType)
    ensures Same(AddLending(e, bookid).1, e)
    ensures Same(RemoveLending(e, bookid).1, e)
    ensures Same(SetUserType(e, t), e)
  {
  }
}
