/** The records that HandlePrepare of the Windows runner saves: which proofs they hold, and
    which of them can be loaded again. */
module WindowsPrepared {
  import opened Decimals
  import opened RecordBytes
  import opened Volumes
  import opened WindowsRecordCodec

  function Ascii(s: string): (text: Text)
    ensures |text| == |s|
  {
    seq(|s|, i requires 0 <= i < |s| => if s[i] as int < 128 then s[i] as int else 63)
  }

  const EXPECTED_IDENTITY := Str(Ascii("expectedIdentity"))
  const EXPECTED_HASH := Str(Ascii("expectedHash"))
  const EXPECT_MISSING := Str(Ascii("expectMissing"))
  const TARGET_DIRECTORY := Str(Ascii("targetDirectory"))
  const STAGE_IDENTITY := Str(Ascii("stageIdentity"))
  const RESULT_HASH := Str(Ascii("resultHash"))
  const RESULT_SIZE := Str(Ascii("resultSize"))
  const BACKUP_IDENTITY := Str(Ascii("backupIdentity"))
  const BACKUP_HASH := Str(Ascii("backupHash"))

  const EXPECTATIONS := [EXPECTED_IDENTITY, EXPECTED_HASH, EXPECT_MISSING, TARGET_DIRECTORY]
  const WRITE_KEYS := EXPECTATIONS + [STAGE_IDENTITY, RESULT_HASH, RESULT_SIZE]
  const AWAY_KEYS := EXPECTATIONS + [BACKUP_IDENTITY, BACKUP_HASH]
  const DIRECTORY_KEYS := EXPECTATIONS + [STAGE_IDENTITY]

  function Optional(text: Option<Text>): Value {
    if text.Some? then Str(text.value) else Null
  }

  /** What the request says about the target. Of a creation, nothing checks the identity and
      the hash. */
  datatype Expectation = Expectation(identity: Option<Text>, hash: Option<Text>, missing: bool, directory: bool) {
    function Values(): (values: seq<Value>)
      ensures |values| == 4
    {
      [Optional(identity), Optional(hash), Bool(missing), Bool(directory)]
    }

    predicate Brief() {
      && (identity.Some? ==> |identity.value| <= MAX_STRING_BYTES)
      && (hash.Some? ==> |hash.value| <= MAX_STRING_BYTES)
    }
  }

  function WriteValues(q: Expectation, stage: Text, resultHash: Text, size: int): (values: seq<Value>)
    ensures |values| == |WRITE_KEYS|
  {
    q.Values() + [Str(stage), Str(resultHash), Int64(size)]
  }

  /** A deletion or a move. */
  function AwayValues(q: Expectation, backup: Text, backupHash: Text): (values: seq<Value>)
    ensures |values| == |AWAY_KEYS|
  {
    q.Values() + [Str(backup), Str(backupHash)]
  }

  function DirectoryValues(q: Expectation, stage: Text): (values: seq<Value>)
    ensures |values| == |DIRECTORY_KEYS|
  {
    q.Values() + [Str(stage)]
  }

  // ---------------------------------------------------------------- proofs as tables

  function Table(keys: seq<Value>, values: seq<Value>): Proofs
    requires |keys| == |values|
  {
    if keys == [] then map[] else Table(keys[1..], values[1..])[keys[0] := values[0]]
  }

  predicate IsKey(key: Value) {
    key.Str? && |key.text| <= 16
  }

  predicate Keys(keys: seq<Value>) {
    && |keys| <= MAX_PROOFS && (forall k <- keys :: IsKey(k))
    && forall i, j | 0 <= i < j < |keys| :: keys[i] != keys[j]
  }

  lemma KeysDiffer()
    ensures Keys(WRITE_KEYS) && Keys(AWAY_KEYS) && Keys(DIRECTORY_KEYS)
  {
    assert EXPECTED_IDENTITY.text[0] == 101 && EXPECT_MISSING.text[0] == 101 && STAGE_IDENTITY.text[0] == 115;
    assert RESULT_HASH.text[6] == 72 && RESULT_SIZE.text[6] == 83;
  }

  lemma {:induction false} TableLists(keys: seq<Value>, values: seq<Value>)
    requires |keys| == |values| && Keys(keys)
    ensures Lists(keys, Table(keys, values))
    ensures forall i | 0 <= i < |keys| :: Table(keys, values)[keys[i]] == values[i]
  {
    if keys != [] {
      TableLists(keys[1..], values[1..]);
      var rest := Table(keys[1..], values[1..]);
      assert keys[0] !in rest;
      forall i | 0 <= i < |keys|
        ensures keys[i] in Table(keys, values) && Table(keys, values)[keys[i]] == values[i]
      {
        if i > 0 {
          assert keys[i] == keys[1..][i - 1] && values[i] == values[1..][i - 1];
        }
      }
      assert forall k <- keys[1..] :: k in keys;
    }
  }

  predicate AllBrief(values: seq<Value>) {
    forall i | 0 <= i < |values| :: values[i].Str? ==> |values[i].text| <= MAX_STRING_BYTES
  }

  lemma TableIsReadableExactlyWhen(s: OperationState, keys: seq<Value>, values: seq<Value>)
    requires |keys| == |values| && Keys(keys) && s.proof == Table(keys, values)
    ensures s.Readable() <==> Short(s.Strings()) && AllBrief(values)
  {
    TableLists(keys, values);
    if AllBrief(values) {
      forall k <- s.proof
        ensures ReadableEntry(k.text, s.proof[k])
      {
        var i :| 0 <= i < |keys| && keys[i] == k;
        assert s.proof[k] == values[i];
      }
    } else {
      var i :| 0 <= i < |values| && values[i].Str? && |values[i].text| > MAX_STRING_BYTES;
      assert keys[i] in keys && s.proof[keys[i]] == values[i];
    }
  }

  /** A saved table loads again exactly when the strings and the values are short enough. */
  lemma TableLoadsExactlyWhen(s: OperationState, order: seq<Value>, keys: seq<Value>, values: seq<Value>)
    requires |keys| == |values| && Keys(keys) && s.proof == Table(keys, values) && Saved(s, order)
    ensures Decoded(Encoded(s, order)) == if Short(s.Strings()) && AllBrief(values) then Some(s) else None
  {
    SavedThenLoaded(s, order);
    TableIsReadableExactlyWhen(s, keys, values);
  }

  /** SaveOperationState has written the state in this order. */
  predicate Saved(s: OperationState, order: seq<Value>) {
    s.Typed() && s.Writable() && Lists(order, s.proof) && |Encoded(s, order)| <= MAX_STATE_BYTES
  }

  // ---------------------------------------------------------------- what loads again

  /** Everything prepare has checked or made up is short; the destination it has not. */
  predicate Checked(s: OperationState) {
    Short([s.token, s.rootIdentity, s.sessionIdentity, s.sessionKey, s.operation, s.path])
  }

  lemma CheckedIsShort(s: OperationState)
    requires Checked(s)
    ensures Short(s.Strings()) <==> |s.destination| <= MAX_STRING_BYTES
  {
    var checked := [s.token, s.rootIdentity, s.sessionIdentity, s.sessionKey, s.operation, s.path];
    assert s.Strings() == checked + [s.destination];
    assert s.Strings()[6] == s.destination;
  }

  /** The record of a write loads again exactly when the expected identity and hash of the
      request are short enough. */
  lemma PreparedWriteLoadsExactlyWhen(
      s: OperationState, order: seq<Value>, q: Expectation, stage: Text, resultHash: Text, size: int)
    requires s.proof == Table(WRITE_KEYS, WriteValues(q, stage, resultHash, size)) && Saved(s, order)
    requires Checked(s) && s.destination == [] && Short([stage, resultHash])
    ensures Decoded(Encoded(s, order)) == if q.Brief() then Some(s) else None
  {
    var values := WriteValues(q, stage, resultHash, size);
    KeysDiffer();
    CheckedIsShort(s);
    TableLoadsExactlyWhen(s, order, WRITE_KEYS, values);
    assert [stage, resultHash][0] == stage && [stage, resultHash][1] == resultHash;
    assert values[0] == Optional(q.identity) && values[1] == Optional(q.hash);
  }

  /** So does the record of a new directory. */
  lemma PreparedDirectoryLoadsExactlyWhen(s: OperationState, order: seq<Value>, q: Expectation, stage: Text)
    requires s.proof == Table(DIRECTORY_KEYS, DirectoryValues(q, stage)) && Saved(s, order)
    requires Checked(s) && s.destination == [] && |stage| <= MAX_STRING_BYTES
    ensures Decoded(Encoded(s, order)) == if q.Brief() then Some(s) else None
  {
    var values := DirectoryValues(q, stage);
    KeysDiffer();
    CheckedIsShort(s);
    TableLoadsExactlyWhen(s, order, DIRECTORY_KEYS, values);
    assert values[0] == Optional(q.identity) && values[1] == Optional(q.hash);
  }

  /** Of a deletion or a move prepare has checked the expectation, but not the destination:
      its record loads again exactly when that is short enough. */
  lemma PreparedAwayLoadsExactlyWhen(
      s: OperationState, order: seq<Value>, q: Expectation, backup: Text, backupHash: Text)
    requires s.proof == Table(AWAY_KEYS, AwayValues(q, backup, backupHash)) && Saved(s, order)
    requires Checked(s) && q.Brief() && Short([backup, backupHash])
    ensures Decoded(Encoded(s, order)) == if |s.destination| <= MAX_STRING_BYTES then Some(s) else None
  {
    KeysDiffer();
    CheckedIsShort(s);
    TableLoadsExactlyWhen(s, order, AWAY_KEYS, AwayValues(q, backup, backupHash));
    assert [backup, backupHash][0] == backup && [backup, backupHash][1] == backupHash;
  }

  // ---------------------------------------------------------------- two records that are lost

  lemma {:induction false} EntriesFit(order: seq<Value>, proof: Proofs, bound: nat)
    requires Written(order, proof)
    requires forall i | 0 <= i < |order| :: |EntryBytes(order[i].text, proof[order[i]])| <= bound
    ensures |EntriesBytes(order, proof)| <= |order| * bound
  {
    if order != [] {
      assert forall i | 0 <= i < |order| - 1 :: order[1..][i] == order[i + 1];
      EntriesFit(order[1..], proof, bound);
      OneMore(|order| - 1, bound);
    }
  }

  predicate Storable(value: Value) {
    match value
    case Str(text) => |text| <= 5000
    case Int64(number) => IsInt64(number)
    case OtherValue => false
    case _ => true
  }

  lemma ValueFits(value: Value)
    requires Storable(value)
    ensures |ValueBytes(value)| <= 5005
  {
    if value.Int64? {
      TextIsShort(value.number);
    }
  }

  lemma TableIsWritten(s: OperationState, keys: seq<Value>, values: seq<Value>)
    requires |keys| == |values| && Keys(keys) && s.proof == Table(keys, values)
    requires forall v <- values :: Storable(v)
    ensures s.Typed() && s.Writable() && Lists(keys, s.proof) && Written(keys, s.proof)
    ensures |EntriesBytes(keys, s.proof)| <= |keys| * 5025
  {
    TableLists(keys, values);
    forall i | 0 <= i < |keys|
      ensures IsKey(keys[i]) && Storable(s.proof[keys[i]]) && |EntryBytes(keys[i].text, s.proof[keys[i]])| <= 5025
    {
      assert values[i] in values && keys[i] in keys;
      ValueFits(values[i]);
    }
    EntriesFit(keys, s.proof, 5025);
  }

  lemma TableFits(s: OperationState, keys: seq<Value>, values: seq<Value>, bound: nat)
    requires |keys| == |values| && Keys(keys) && s.proof == Table(keys, values)
    requires forall v <- values :: Storable(v)
    requires forall i | 0 <= i < STRINGS :: |s.Strings()[i]| <= bound
    requires 17 + STRINGS * (4 + bound) + |keys| * 5025 <= MAX_STATE_BYTES
    ensures Saved(s, keys)
  {
    TableIsWritten(s, keys, values);
    StringsFit(s.Strings(), bound);
  }

  /** What a creation is asked to expect although nothing is to be there. */
  function Unchecked(identity: Text): Expectation {
    Expectation(Some(identity), None, true, false)
  }

  /** A creation whose request names an expected identity of 5000 bytes is prepared, its
      record is saved, and no later call can load it. */
  lemma LongIdentityIsSavedAndLost(s: OperationState, identity: Text, stage: Text, resultHash: Text, size: int)
    requires |identity| == 5000 && Short([stage, resultHash]) && IsInt64(size)
    requires s.proof == Table(WRITE_KEYS, WriteValues(Unchecked(identity), stage, resultHash, size))
    requires Checked(s) && s.destination == []
    ensures Saved(s, WRITE_KEYS) && Decoded(Encoded(s, WRITE_KEYS)) == None
  {
    var q := Unchecked(identity);
    KeysDiffer();
    CheckedIsShort(s);
    assert [stage, resultHash][0] == stage && [stage, resultHash][1] == resultHash;
    TableFits(s, WRITE_KEYS, WriteValues(q, stage, resultHash, size), MAX_STRING_BYTES);
    PreparedWriteLoadsExactlyWhen(s, WRITE_KEYS, q, stage, resultHash, size);
  }

  /** Nor can the record of a move to a destination of 5000 bytes. */
  lemma LongDestinationIsSavedAndLost(s: OperationState, q: Expectation, backup: Text, backupHash: Text)
    requires |s.destination| == 5000 && Checked(s) && q.Brief() && Short([backup, backupHash])
    requires s.proof == Table(AWAY_KEYS, AwayValues(q, backup, backupHash))
    ensures Saved(s, AWAY_KEYS) && Decoded(Encoded(s, AWAY_KEYS)) == None
  {
    KeysDiffer();
    CheckedLengths(s);
    assert [backup, backupHash][0] == backup && [backup, backupHash][1] == backupHash;
    TableFits(s, AWAY_KEYS, AwayValues(q, backup, backupHash), 5000);
    PreparedAwayLoadsExactlyWhen(s, AWAY_KEYS, q, backup, backupHash);
  }

  lemma CheckedLengths(s: OperationState)
    requires Checked(s) && |s.destination| == 5000
    ensures forall i | 0 <= i < STRINGS :: |s.Strings()[i]| <= 5000
  {
    var checked := [s.token, s.rootIdentity, s.sessionIdentity, s.sessionKey, s.operation, s.path];
    assert s.Strings() == checked + [s.destination];
    assert forall i | 0 <= i < 6 :: s.Strings()[i] == checked[i];
  }
}
