/** The session store: an ordered map of byte keys, scanned by prefix. */
module SessionStores {
  import opened ByteStrings
  import opened CoreTypes
  import opened Sessions

  // ---------- Lexicographic order ----------

  predicate Less(a: seq<byte>, b: seq<byte>) {
    if b == [] then false
    else if a == [] then true
    else a[0] < b[0] || (a[0] == b[0] && Less(a[1..], b[1..]))
  }

  lemma {:induction false} LessTrichotomy(a: seq<byte>, b: seq<byte>)
    ensures Less(a, b) || a == b || Less(b, a)
    ensures !(Less(a, b) && Less(b, a)) && (a == b ==> !Less(a, b))
  {
    if a == [] || b == [] {
    } else {
      LessTrichotomy(a[1..], b[1..]);
      assert a == [a[0]] + a[1..] && b == [b[0]] + b[1..];
    }
  }

  lemma {:induction false} LessTransitive(a: seq<byte>, b: seq<byte>, c: seq<byte>)
    requires Less(a, b) && Less(b, c)
    ensures Less(a, c)
  {
    if a == [] || a[0] < c[0] {
    } else {
      LessTransitive(a[1..], b[1..], c[1..]);
    }
  }

  /** `a` and `b` agree on their first `n` bytes, and there `a` ends first or has the smaller byte. */
  ghost predicate FirstDifference(a: seq<byte>, b: seq<byte>, n: nat) {
    && n <= |a| && n < |b| && a[..n] == b[..n]
    && (n == |a| || a[n] < b[n])
  }

  lemma {:induction false} LessDiffers(a: seq<byte>, b: seq<byte>) returns (n: nat)
    requires Less(a, b)
    ensures FirstDifference(a, b, n)
  {
    if a == [] || a[0] < b[0] {
      n := 0;
    } else {
      n := LessDiffers(a[1..], b[1..]);
      assert a == [a[0]] + a[1..] && b == [b[0]] + b[1..];
      n := n + 1;
    }
  }

  lemma {:induction false} DifferentIsLess(a: seq<byte>, b: seq<byte>, n: nat)
    requires FirstDifference(a, b, n)
    ensures Less(a, b)
    decreases n
  {
    if n == 0 {
    } else {
      assert a[0] == a[..n][0] == b[..n][0] == b[0];
      assert a[1..][..n - 1] == a[..n][1..] && b[1..][..n - 1] == b[..n][1..];
      DifferentIsLess(a[1..], b[1..], n - 1);
    }
  }

  /** The order is the lexicographic one, on unsigned bytes. */
  lemma LessIsLexicographic(a: seq<byte>, b: seq<byte>)
    ensures Less(a, b) <==> exists n: nat :: FirstDifference(a, b, n)
  {
    if Less(a, b) {
      var n := LessDiffers(a, b);
    }
    forall n: nat | FirstDifference(a, b, n) ensures Less(a, b) {
      DifferentIsLess(a, b, n);
    }
  }

  lemma {:induction false} LessAfterPrefix(prefix: seq<byte>, a: seq<byte>, b: seq<byte>)
    ensures Less(prefix + a, prefix + b) <==> Less(a, b)
  {
    if prefix == [] {
      assert prefix + a == a && prefix + b == b;
    } else {
      LessAfterPrefix(prefix[1..], a, b);
      assert (prefix + a)[1..] == prefix[1..] + a && (prefix + b)[1..] == prefix[1..] + b;
    }
  }

  /** A string with a prefix is not below that prefix. */
  lemma {:induction false} PrefixIsLower(prefix: seq<byte>, k: seq<byte>)
    requires prefix <= k
    ensures !Less(k, prefix)
  {
    if prefix == [] {
    } else {
      PrefixIsLower(prefix[1..], k[1..]);
    }
  }

  /** Keys sharing a prefix are contiguous from the prefix on: past the first that lacks it, none has it. */
  lemma {:induction false} PrefixBlockIsContiguous(prefix: seq<byte>, k: seq<byte>, above: seq<byte>)
    requires !Less(k, prefix) && !(prefix <= k) && Less(k, above)
    ensures !(prefix <= above)
  {
    if prefix == [] || k == [] || above == [] || prefix[0] != k[0] || above[0] != k[0] {
    } else {
      assert k == [k[0]] + k[1..] && prefix == [prefix[0]] + prefix[1..] && above == [above[0]] + above[1..];
      assert prefix[1..] <= k[1..] ==> prefix <= k;
      PrefixBlockIsContiguous(prefix[1..], k[1..], above[1..]);
    }
  }

  // ---------- The ordered map ----------

  /** What a stored value decodes to; a store on disk may hold bytes that are no session. */
  datatype Stored = Intact(session: Session) | Corrupted

  datatype Item = Item(key: seq<byte>, value: Stored)

  datatype StoreError = SessionNotFound | SessionCorrupted

  /** A map as the list of its items, keys strictly ascending. */
  ghost predicate Ascending(t: seq<Item>) {
    forall i, j :: 0 <= i < j < |t| ==> Less(t[i].key, t[j].key)
  }

  function Lookup(t: seq<Item>, k: seq<byte>): (r: Option<Stored>) {
    if t == [] then None else if t[0].key == k then Some(t[0].value) else Lookup(t[1..], k)
  }

  function Insert(t: seq<Item>, k: seq<byte>, v: Stored): (r: seq<Item>) {
    if t == [] then [Item(k, v)]
    else if t[0].key == k then [Item(k, v)] + t[1..]
    else if Less(k, t[0].key) then [Item(k, v)] + t
    else [t[0]] + Insert(t[1..], k, v)
  }

  function Remove(t: seq<Item>, k: seq<byte>): (r: seq<Item>) {
    if t == [] then [] else if t[0].key == k then t[1..] else [t[0]] + Remove(t[1..], k)
  }

  /** The items from `from` on, as a range scan yields them. */
  function Range(t: seq<Item>, from: seq<byte>): (r: seq<Item>) {
    if t == [] || !Less(t[0].key, from) then t else Range(t[1..], from)
  }

  ghost predicate KeysAbove(t: seq<Item>, k: seq<byte>) {
    forall i :: 0 <= i < |t| ==> Less(k, t[i].key)
  }

  lemma AscendingCons(x: Item, t: seq<Item>)
    ensures Ascending([x] + t) <==> Ascending(t) && KeysAbove(t, x.key)
  {
    var s := [x] + t;
    if Ascending(t) && KeysAbove(t, x.key) {
      forall i, j | 0 <= i < j < |s| ensures Less(s[i].key, s[j].key) {
        assert s[j] == t[j - 1];
        if i > 0 {
          assert s[i] == t[i - 1];
        }
      }
    }
    if Ascending(s) {
      forall i | 0 <= i < |t| ensures Less(x.key, t[i].key) {
        assert s[0] == x && t[i] == s[i + 1];
        assert Less(s[0].key, s[i + 1].key);
      }
      forall i, j | 0 <= i < j < |t| ensures Less(t[i].key, t[j].key) {
        assert t[i] == s[i + 1] && t[j] == s[j + 1];
      }
    }
  }

  lemma Uncons(t: seq<Item>)
    requires t != [] && Ascending(t)
    ensures Ascending(t[1..]) && KeysAbove(t[1..], t[0].key)
  {
    assert t == [t[0]] + t[1..];
    AscendingCons(t[0], t[1..]);
  }

  lemma {:induction false} InsertKeepsOrder(t: seq<Item>, k: seq<byte>, v: Stored)
    requires Ascending(t)
    ensures Ascending(Insert(t, k, v))
    ensures forall low: seq<byte> :: KeysAbove(t, low) && Less(low, k) ==> KeysAbove(Insert(t, k, v), low)
  {
    hide Less;
    if t == [] {
      AscendingCons(Item(k, v), []);
    } else {
      Uncons(t);
      if t[0].key == k {
        AscendingCons(Item(k, v), t[1..]);
      } else {
        LessTrichotomy(k, t[0].key);
        if Less(k, t[0].key) {
          forall i | 0 <= i < |t| ensures Less(k, t[i].key) {
            if i > 0 {
              LessTransitive(k, t[0].key, t[i].key);
            }
          }
          AscendingCons(Item(k, v), t);
        } else {
          InsertKeepsOrder(t[1..], k, v);
          AscendingCons(t[0], Insert(t[1..], k, v));
        }
      }
    }
  }

  lemma {:induction false} RemoveKeepsOrder(t: seq<Item>, k: seq<byte>)
    requires Ascending(t)
    ensures Ascending(Remove(t, k))
    ensures forall low: seq<byte> :: KeysAbove(t, low) ==> KeysAbove(Remove(t, k), low)
  {
    hide Less;
    if t == [] {
    } else {
      Uncons(t);
      if t[0].key != k {
        RemoveKeepsOrder(t[1..], k);
        AscendingCons(t[0], Remove(t[1..], k));
        forall low: seq<byte> | KeysAbove(t, low) ensures KeysAbove(Remove(t, k), low) {
          assert KeysAbove(t[1..], low);
        }
      }
    }
  }

  lemma {:induction false} AboveMeansAbsent(t: seq<Item>, k: seq<byte>)
    requires KeysAbove(t, k)
    ensures Lookup(t, k) == None
  {
    if t == [] {
    } else {
      LessTrichotomy(k, t[0].key);
      AboveMeansAbsent(t[1..], k);
    }
  }

  lemma {:induction false} LookupAfterInsert(t: seq<Item>, k: seq<byte>, v: Stored, j: seq<byte>)
    ensures Lookup(Insert(t, k, v), j) == if j == k then Some(v) else Lookup(t, j)
  {
    if t == [] {
    } else {
      LookupAfterInsert(t[1..], k, v, j);
      assert ([t[0]] + Insert(t[1..], k, v))[1..] == Insert(t[1..], k, v);
      assert ([Item(k, v)] + t)[1..] == t && ([Item(k, v)] + t[1..])[1..] == t[1..];
    }
  }

  lemma {:induction false} LookupAfterRemove(t: seq<Item>, k: seq<byte>, j: seq<byte>)
    requires Ascending(t)
    ensures Lookup(Remove(t, k), j) == if j == k then None else Lookup(t, j)
  {
    hide Less;
    if t == [] {
    } else {
      Uncons(t);
      LookupAfterRemove(t[1..], k, j);
      if t[0].key == k {
        AboveMeansAbsent(t[1..], k);
      }
      assert ([t[0]] + Remove(t[1..], k))[1..] == Remove(t[1..], k);
    }
  }

  // ---------- Keys ----------

  /** `SessionKey`: three 32-byte fields in a row. */
  function KeyOf(instancePda: Hash, proposalId: Hash, commitment: Hash): (r: seq<byte>)
    ensures |r| == 96
  {
    instancePda + proposalId + commitment
  }

  function SessionKey(s: Session): (r: seq<byte>) {
    KeyOf(s.instancePda, s.proposalId, s.memberCommitment)
  }

  predicate Targets(s: Session, instancePda: Hash, proposalId: Hash) {
    s.instancePda == instancePda && s.proposalId == proposalId
  }

  /** A key holds instance, proposal and commitment in this order, and is injective. */
  lemma KeyInjective(i: Hash, p: Hash, m: Hash, i': Hash, p': Hash, m': Hash)
    ensures KeyOf(i, p, m)[..32] == i && KeyOf(i, p, m)[32..64] == p && KeyOf(i, p, m)[64..] == m
    ensures KeyOf(i, p, m) == KeyOf(i', p', m') <==> i == i' && p == p' && m == m'
  {
    var k, k' := KeyOf(i, p, m), KeyOf(i', p', m');
    assert k[..32] == i && k[32..64] == p && k[64..] == m;
    assert k'[..32] == i' && k'[32..64] == p' && k'[64..] == m';
  }

  /** A key has the 64-byte prefix of a proposal exactly when its session targets that proposal. */
  lemma PrefixMeansTarget(s: Session, instancePda: Hash, proposalId: Hash)
    ensures instancePda + proposalId <= SessionKey(s) <==> Targets(s, instancePda, proposalId)
  {
    var prefix, k := instancePda + proposalId, SessionKey(s);
    assert k[..64] == s.instancePda + s.proposalId;
    assert prefix <= k <==> prefix == k[..64];
    assert prefix[..32] == instancePda && prefix[32..] == proposalId;
    assert k[..64][..32] == s.instancePda && k[..64][32..] == s.proposalId;
  }

  // ---------- The scan ----------

  /** The items whose key has the prefix, in key order: the plain filter a prefix scan must equal. */
  function Prefixed(t: seq<Item>, prefix: seq<byte>): (r: seq<Item>) {
    if t == [] then []
    else if prefix <= t[0].key then [t[0]] + Prefixed(t[1..], prefix)
    else Prefixed(t[1..], prefix)
  }

  /** The filter keeps exactly the items with the prefix, in ascending key order. */
  lemma {:induction false} PrefixedExactly(t: seq<Item>, prefix: seq<byte>, item: Item)
    requires Ascending(t)
    ensures Ascending(Prefixed(t, prefix))
    ensures forall low: seq<byte> :: KeysAbove(t, low) ==> KeysAbove(Prefixed(t, prefix), low)
    ensures item in Prefixed(t, prefix) <==> item in t && prefix <= item.key
  {
    hide Less;
    if t == [] {
    } else {
      Uncons(t);
      PrefixedExactly(t[1..], prefix, item);
      AscendingCons(t[0], Prefixed(t[1..], prefix));
      assert item in t <==> item == t[0] || item in t[1..];
      forall low: seq<byte> | KeysAbove(t, low) ensures KeysAbove(Prefixed(t, prefix), low) {
        assert KeysAbove(t[1..], low);
      }
    }
  }

  /** What the scan loop reaches: the items up to the first key without the prefix. */
  function TakePrefixed(t: seq<Item>, prefix: seq<byte>): (r: seq<Item>) {
    if t == [] || !(prefix <= t[0].key) then [] else [t[0]] + TakePrefixed(t[1..], prefix)
  }

  function Prepend(front: seq<Session>, rest: Result<seq<Session>, StoreError>): (r: Result<seq<Session>, StoreError>) {
    match rest
    case Ok(sessions) => Ok(front + sessions)
    case Err(e) => Err(e)
  }

  /** The sessions of a list of items; one corrupted value spoils the whole list. */
  function Decoded(items: seq<Item>): (r: Result<seq<Session>, StoreError>)
    ensures r == Err(SessionCorrupted) <==> exists i :: 0 <= i < |items| && items[i].value.Corrupted?
    ensures r.Ok? <==> forall i :: 0 <= i < |items| ==> items[i].value.Intact?
    ensures r.Ok? ==> |r.value| == |items| && forall i :: 0 <= i < |items| ==> items[i].value == Intact(r.value[i])
  {
    if items == [] then Ok([])
    else if items[0].value.Corrupted? then Err(SessionCorrupted)
    else Prepend([items[0].value.session], Decoded(items[1..]))
  }

  lemma PrependEmpty(rest: Result<seq<Session>, StoreError>, front: seq<Session>)
    ensures Prepend([], rest) == rest && Prepend(front, Ok([])) == Ok(front)
  {
    assert rest.Ok? ==> [] + rest.value == rest.value;
    assert front + [] == front;
  }

  lemma CorruptedSpoils(front: seq<Session>, items: seq<Item>)
    requires items != [] && items[0].value.Corrupted?
    ensures Prepend(front, Decoded(items)) == Err(SessionCorrupted)
  {
  }

  lemma PrependOneMore(front: seq<Session>, x: Session, rest: Result<seq<Session>, StoreError>)
    ensures Prepend(front, Prepend([x], rest)) == Prepend(front + [x], rest)
  {
    assert rest.Ok? ==> front + ([x] + rest.value) == (front + [x]) + rest.value;
  }

  lemma {:induction false} NoneBeyond(t: seq<Item>, prefix: seq<byte>)
    requires forall i :: 0 <= i < |t| ==> !(prefix <= t[i].key)
    ensures Prefixed(t, prefix) == []
  {
    if t == [] {
    } else {
      NoneBeyond(t[1..], prefix);
    }
  }

  lemma NotBelow(prefix: seq<byte>, k: seq<byte>, above: seq<byte>)
    requires !Less(k, prefix) && Less(k, above)
    ensures !Less(above, prefix)
  {
    if Less(above, prefix) {
      LessTransitive(k, above, prefix);
    }
  }

  /** From the prefix on, stopping at the first key without it loses nothing. */
  lemma {:induction false} TakeIsFilter(t: seq<Item>, prefix: seq<byte>)
    requires Ascending(t) && (t == [] || !Less(t[0].key, prefix))
    ensures TakePrefixed(t, prefix) == Prefixed(t, prefix)
  {
    hide Less;
    if t == [] {
    } else {
      Uncons(t);
      if prefix <= t[0].key {
        if t[1..] != [] {
          NotBelow(prefix, t[0].key, t[1].key);
        }
        TakeIsFilter(t[1..], prefix);
      } else {
        forall i | 0 <= i < |t| ensures !(prefix <= t[i].key) {
          if i > 0 {
            PrefixBlockIsContiguous(prefix, t[0].key, t[i].key);
          }
        }
        NoneBeyond(t, prefix);
      }
    }
  }

  /** Starting the scan at the prefix skips no match. */
  lemma {:induction false} RangeKeepsMatches(t: seq<Item>, prefix: seq<byte>)
    requires Ascending(t)
    ensures
      var rest := Range(t, prefix);
      && Prefixed(rest, prefix) == Prefixed(t, prefix)
      && Ascending(rest) && (rest == [] || !Less(rest[0].key, prefix))
  {
    hide Less;
    if t == [] || !Less(t[0].key, prefix) {
    } else {
      Uncons(t);
      RangeKeepsMatches(t[1..], prefix);
      if prefix <= t[0].key {
        PrefixIsLower(prefix, t[0].key);
        assert false;
      }
    }
  }

  // ---------- The store ----------

  /** Every value decodes, to a session filed under its own key. */
  ghost predicate Keyed(t: seq<Item>) {
    forall i :: 0 <= i < |t| ==> t[i].value.Intact? && t[i].key == SessionKey(t[i].value.session)
  }

  lemma {:induction false} InsertKeepsKeys(t: seq<Item>, s: Session)
    requires Keyed(t)
    ensures Keyed(Insert(t, SessionKey(s), Intact(s)))
  {
    hide SessionKey, Less;
    if t == [] {
    } else {
      InsertKeepsKeys(t[1..], s);
    }
  }

  lemma {:induction false} RemoveKeepsKeys(t: seq<Item>, k: seq<byte>)
    requires Keyed(t)
    ensures Keyed(Remove(t, k))
  {
    hide SessionKey;
    if t == [] {
    } else {
      RemoveKeepsKeys(t[1..], k);
    }
  }

  function Loaded(found: Option<Stored>): (r: Result<Session, StoreError>) {
    match found
    case None => Err(SessionNotFound)
    case Some(Corrupted) => Err(SessionCorrupted)
    case Some(Intact(session)) => Ok(session)
  }

  /** A missing session and one that does not decode are told apart. */
  lemma LoadedExactly(found: Option<Stored>)
    ensures Loaded(found) == Err(SessionNotFound) <==> found == None
    ensures Loaded(found) == Err(SessionCorrupted) <==> found == Some(Corrupted)
    ensures forall s :: Loaded(found) == Ok(s) <==> found == Some(Intact(s))
  {
  }

  /** The store over an ordered map, whatever a file on disk holds. */
  class SessionStore {
    var tree: seq<Item>

    ghost predicate Valid()
      reads this
    {
      Ascending(tree)
    }

    constructor (onDisk: seq<Item>)
      requires Ascending(onDisk)
      ensures Valid() && tree == onDisk
    {
      tree := onDisk;
    }

    method Save(session: Session)
      requires Valid()
      modifies this
      ensures Valid() && tree == Insert(old(tree), SessionKey(session), Intact(session))
    {
      InsertKeepsOrder(tree, SessionKey(session), Intact(session));
      tree := Insert(tree, SessionKey(session), Intact(session));
    }

    method Load(instancePda: Hash, proposalId: Hash, commitment: Hash) returns (session: Result<Session, StoreError>)
      ensures session == Loaded(Lookup(tree, KeyOf(instancePda, proposalId, commitment)))
    {
      var found := Lookup(tree, KeyOf(instancePda, proposalId, commitment));
      if found.None? {
        return Err(SessionNotFound);
      }
      if found.value.Corrupted? {
        return Err(SessionCorrupted);
      }
      return Ok(found.value.session);
    }

    method Delete(instancePda: Hash, proposalId: Hash, commitment: Hash)
      requires Valid()
      modifies this
      ensures Valid() && tree == Remove(old(tree), KeyOf(instancePda, proposalId, commitment))
    {
      var k := KeyOf(instancePda, proposalId, commitment);
      RemoveKeepsOrder(tree, k);
      tree := Remove(tree, k);
    }

    /**
     * Scans from the 64-byte prefix, stops at the first key without it, and gives up at the first
     * value that does not decode.
     */
    method LoadForProposal(instancePda: Hash, proposalId: Hash) returns (found: Result<seq<Session>, StoreError>)
      requires Valid()
      ensures found == Decoded(Prefixed(tree, instancePda + proposalId))
    {
      hide Less, Prefixed, Ascending, Prepend;
      var prefix := instancePda + proposalId;
      RangeKeepsMatches(tree, prefix);
      var items := Range(tree, prefix);
      TakeIsFilter(items, prefix);
      PrependEmpty(Decoded(TakePrefixed(items, prefix)), []);
      var results := [];
      var i := 0;
      while i < |items|
        invariant 0 <= i <= |items|
        invariant Prepend(results, Decoded(TakePrefixed(items[i..], prefix))) == Decoded(TakePrefixed(items, prefix))
      {
        var item := items[i];
        if |item.key| < |prefix| || item.key[..|prefix|] != prefix {
          break;
        }
        assert TakePrefixed(items[i..], prefix) == [item] + TakePrefixed(items[i..][1..], prefix);
        if item.value.Corrupted? {
          CorruptedSpoils(results, TakePrefixed(items[i..], prefix));
          return Err(SessionCorrupted);
        }
        PrependOneMore(results, item.value.session, Decoded(TakePrefixed(items[i + 1..], prefix)));
        results := results + [item.value.session];
        assert items[i..][1..] == items[i + 1..];
        i := i + 1;
      }
      PrependEmpty(Ok([]), results);
      return Ok(results);
    }
  }

  // ---------- Runs of saves and deletes ----------

  datatype StoreCall = Save(session: Session) | Delete(instancePda: Hash, proposalId: Hash, commitment: Hash)

  function TreeAfter(calls: seq<StoreCall>): (r: seq<Item>) {
    if calls == [] then [] else
      var t := TreeAfter(calls[..|calls| - 1]);
      match calls[|calls| - 1]
      case Save(s) => Insert(t, SessionKey(s), Intact(s))
      case Delete(instancePda, proposalId, commitment) => Remove(t, KeyOf(instancePda, proposalId, commitment))
  }

  predicate IsFor(s: Session, instancePda: Hash, proposalId: Hash, commitment: Hash) {
    Targets(s, instancePda, proposalId) && s.memberCommitment == commitment
  }

  /** The reference, free of keys and order: the last call for an instance, proposal and member decides. */
  function LastWritten(calls: seq<StoreCall>, instancePda: Hash, proposalId: Hash, commitment: Hash)
    : (r: Option<Session>)
    ensures r.Some? ==> IsFor(r.value, instancePda, proposalId, commitment)
  {
    if calls == [] then None else
      var earlier := LastWritten(calls[..|calls| - 1], instancePda, proposalId, commitment);
      match calls[|calls| - 1]
      case Save(s) => if IsFor(s, instancePda, proposalId, commitment) then Some(s) else earlier
      case Delete(i, p, m) => if i == instancePda && p == proposalId && m == commitment then None else earlier
  }

  lemma {:induction false} TreeIsKeyed(calls: seq<StoreCall>)
    ensures Ascending(TreeAfter(calls)) && Keyed(TreeAfter(calls))
  {
    hide Less, SessionKey, KeyOf;
    if calls == [] {
    } else {
      var t := TreeAfter(calls[..|calls| - 1]);
      TreeIsKeyed(calls[..|calls| - 1]);
      match calls[|calls| - 1]
      case Save(s) =>
        InsertKeepsOrder(t, SessionKey(s), Intact(s));
        InsertKeepsKeys(t, s);
      case Delete(instancePda, proposalId, commitment) =>
        RemoveKeepsOrder(t, KeyOf(instancePda, proposalId, commitment));
        RemoveKeepsKeys(t, KeyOf(instancePda, proposalId, commitment));
    }
  }

  /** After any saves and deletes, `load` returns what the last call for that member wrote. */
  lemma {:induction false} StoreIsLastWritten(calls: seq<StoreCall>, instancePda: Hash, proposalId: Hash,
                                              commitment: Hash)
    ensures Loaded(Lookup(TreeAfter(calls), KeyOf(instancePda, proposalId, commitment)))
         == match LastWritten(calls, instancePda, proposalId, commitment)
            case None => Err(SessionNotFound)
            case Some(s) => Ok(s)
  {
    hide Less, KeyOf, Insert, Remove;
    if calls == [] {
    } else {
      var front, k := calls[..|calls| - 1], KeyOf(instancePda, proposalId, commitment);
      var t := TreeAfter(front);
      StoreIsLastWritten(front, instancePda, proposalId, commitment);
      match calls[|calls| - 1]
      case Save(s) =>
        KeyInjective(s.instancePda, s.proposalId, s.memberCommitment, instancePda, proposalId, commitment);
        LookupAfterInsert(t, SessionKey(s), Intact(s), k);
      case Delete(i, p, m) =>
        KeyInjective(i, p, m, instancePda, proposalId, commitment);
        TreeIsKeyed(front);
        LookupAfterRemove(t, KeyOf(i, p, m), k);
    }
  }

  // ---------- What a scan of such a store finds ----------

  /** The sessions of a proposal, in key order. */
  function Matching(t: seq<Item>, instancePda: Hash, proposalId: Hash): (r: seq<Session>)
    requires Keyed(t)
  {
    if t == [] then []
    else if Targets(t[0].value.session, instancePda, proposalId) then
      [t[0].value.session] + Matching(t[1..], instancePda, proposalId)
    else Matching(t[1..], instancePda, proposalId)
  }

  /** Filtering keys by prefix is filtering sessions by target. */
  lemma {:induction false} PrefixedIsMatching(t: seq<Item>, instancePda: Hash, proposalId: Hash)
    requires Keyed(t)
    ensures Decoded(Prefixed(t, instancePda + proposalId)) == Ok(Matching(t, instancePda, proposalId))
  {
    hide SessionKey, Targets;
    if t == [] {
    } else {
      PrefixMeansTarget(t[0].value.session, instancePda, proposalId);
      PrefixedIsMatching(t[1..], instancePda, proposalId);
      if instancePda + proposalId <= t[0].key {
        assert Prefixed(t, instancePda + proposalId)[1..] == Prefixed(t[1..], instancePda + proposalId);
      }
    }
  }

  /** A filtered list holds exactly the stored sessions that match. */
  lemma {:induction false} MatchingIsExact(t: seq<Item>, instancePda: Hash, proposalId: Hash, s: Session)
    requires Ascending(t) && Keyed(t)
    ensures s in Matching(t, instancePda, proposalId) <==>
      Targets(s, instancePda, proposalId) && Lookup(t, SessionKey(s)) == Some(Intact(s))
    ensures s in Matching(t, instancePda, proposalId) ==> exists i :: 0 <= i < |t| && t[i].value == Intact(s)
  {
    hide Less, SessionKey, Targets;
    if t == [] {
    } else {
      Uncons(t);
      MatchingIsExact(t[1..], instancePda, proposalId, s);
      if t[0].value == Intact(s) {
        assert Lookup(t, SessionKey(s)) == Some(Intact(s));
      } else if t[0].key == SessionKey(s) {
        AboveMeansAbsent(t[1..], SessionKey(s));
      }
    }
  }

  /** The order of two keys of one proposal is the order of the commitments. */
  lemma SameProposalOrder(a: Session, b: Session, instancePda: Hash, proposalId: Hash)
    requires Targets(a, instancePda, proposalId) && Targets(b, instancePda, proposalId)
    ensures Less(SessionKey(a), SessionKey(b)) <==> Less(a.memberCommitment, b.memberCommitment)
  {
    LessAfterPrefix(instancePda + proposalId, a.memberCommitment, b.memberCommitment);
  }

  lemma {:induction false} MatchingIsOrdered(t: seq<Item>, instancePda: Hash, proposalId: Hash)
    requires Ascending(t) && Keyed(t)
    ensures
      var found := Matching(t, instancePda, proposalId);
      forall i, j :: 0 <= i < j < |found| ==> Less(found[i].memberCommitment, found[j].memberCommitment)
  {
    hide Less, SessionKey, Targets;
    if t == [] {
    } else {
      Uncons(t);
      MatchingIsOrdered(t[1..], instancePda, proposalId);
      var rest := Matching(t[1..], instancePda, proposalId);
      var first := t[0].value.session;
      if Targets(first, instancePda, proposalId) {
        forall j | 0 <= j < |rest| ensures Less(first.memberCommitment, rest[j].memberCommitment) {
          MatchingIsExact(t[1..], instancePda, proposalId, rest[j]);
          SameProposalOrder(first, rest[j], instancePda, proposalId);
        }
        var found := Matching(t, instancePda, proposalId);
        assert found == [first] + rest;
        forall i, j | 0 <= i < j < |found| ensures Less(found[i].memberCommitment, found[j].memberCommitment) {
          assert found[j] == rest[j - 1];
          if i > 0 {
            assert found[i] == rest[i - 1];
          }
        }
      }
    }
  }

  /**
   * After any sequence of saves and deletes, loading a proposal's sessions succeeds and returns
   * exactly those last written for it, one per member, in ascending order of commitments.
   */
  lemma ScanIsExact(calls: seq<StoreCall>, instancePda: Hash, proposalId: Hash, s: Session)
    ensures
      var found := Decoded(Prefixed(TreeAfter(calls), instancePda + proposalId));
      && found.Ok?
      && (s in found.value <==>
            Targets(s, instancePda, proposalId)
            && LastWritten(calls, instancePda, proposalId, s.memberCommitment) == Some(s))
      && forall i, j :: 0 <= i < j < |found.value| ==>
           && found.value[i].memberCommitment != found.value[j].memberCommitment
           && Less(found.value[i].memberCommitment, found.value[j].memberCommitment)
  {
    hide Less, Matching, Prefixed, Decoded;
    var t := TreeAfter(calls);
    TreeIsKeyed(calls);
    StoreIsLastWritten(calls, s.instancePda, s.proposalId, s.memberCommitment);
    PrefixedIsMatching(t, instancePda, proposalId);
    MatchingIsExact(t, instancePda, proposalId, s);
    MatchingIsOrdered(t, instancePda, proposalId);
    var found := Matching(t, instancePda, proposalId);
    forall i, j | 0 <= i < j < |found| ensures found[i].memberCommitment != found[j].memberCommitment {
      LessTrichotomy(found[i].memberCommitment, found[j].memberCommitment);
    }
  }
}
