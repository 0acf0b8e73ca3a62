/** Which key purposes are acceptable for which algorithm (`hks_base_check.c`), and the batch purpose
    that must lie within them (`hks_check_paramset.c`), with every algorithm compiled in. */
module Purpose {
  import opened CTypes

  /** A word of flags, as the numbers of its bits that are set: `|` is union, `&` intersection. */
  type Bits = set<nat>

  const ENCRYPT: Bits := {0}
  const DECRYPT: Bits := {1}
  const SIGN: Bits := {2}
  const VERIFY: Bits := {3}
  const DERIVE: Bits := {4}
  const WRAP: Bits := {5}
  const UNWRAP: Bits := {6}
  const MAC: Bits := {7}
  const AGREE: Bits := {8}

  const HKS_KEY_FLAG_IMPORT_KEY := 1

  /** The masks of the six groups a purpose can belong to. */
  function Group(i: nat): Bits
    requires i < 6
  {
    match i
    case 0 => ENCRYPT + DECRYPT
    case 1 => SIGN + VERIFY
    case 2 => DERIVE
    case 3 => WRAP + UNWRAP
    case 4 => MAC
    case _ => AGREE
  }

  predicate In(purpose: Bits, i: nat)
    requires i < 6
  {
    purpose * Group(i) != {}
  }

  /** The purpose belongs to group `i` and to no other; bits outside all groups do not matter. */
  predicate OnlyIn(purpose: Bits, i: nat)
    requires i < 6
  {
    In(purpose, i) && forall j :: 0 <= j < 6 && j != i ==> !In(purpose, j)
  }

  predicate InOneGroup(purpose: Bits) {
    exists i :: 0 <= i < 6 && OnlyIn(purpose, i)
  }

  function Counted(purpose: Bits, i: nat): nat
    requires i < 6
  {
    if In(purpose, i) then 1 else 0
  }

  /** Counting the groups decides whether there is exactly one. */
  lemma OneGroupIff(purpose: Bits)
    ensures InOneGroup(purpose) <==>
            Counted(purpose, 0) + Counted(purpose, 1) + Counted(purpose, 2) +
            Counted(purpose, 3) + Counted(purpose, 4) + Counted(purpose, 5) == 1
  {
    if Counted(purpose, 0) + Counted(purpose, 1) + Counted(purpose, 2) +
       Counted(purpose, 3) + Counted(purpose, 4) + Counted(purpose, 5) == 1 {
      var i: nat :| i < 6 && In(purpose, i);
      assert OnlyIn(purpose, i);
    }
  }

  method CheckPurposeUnique(inputPurpose: Bits) returns (ret: Status)
    ensures ret == if InOneGroup(inputPurpose) then Success else InvalidPurpose
  {
    var purposeCount := if In(inputPurpose, 0) then 1 else 0;
    purposeCount := purposeCount + if In(inputPurpose, 1) then 1 else 0;
    purposeCount := purposeCount + if In(inputPurpose, 2) then 1 else 0;
    purposeCount := purposeCount + if In(inputPurpose, 3) then 1 else 0;
    purposeCount := purposeCount + if In(inputPurpose, 4) then 1 else 0;
    purposeCount := purposeCount + if In(inputPurpose, 5) then 1 else 0;
    OneGroupIff(inputPurpose);
    ret := if purposeCount == 1 then Success else InvalidPurpose;
  }

  type Table = seq<(u32, Bits)>

  /** The bits forbidden for each algorithm, and those forbidden for import in addition. */
  datatype Tables = Tables(invalid: Table, invalidImport: Table)

  const TABLES := Tables(INVALID_PURPOSE, INVALID_IMPORT_PURPOSE)

  /** g_invalidPurpose. */
  const INVALID_PURPOSE: Table := seq(15, i requires 0 <= i < 15 => Row(i))

  function Row(i: nat): (u32, Bits)
    requires i < 15
  {
    match i
    case 0 => (1, DERIVE + MAC + WRAP + UNWRAP + AGREE)                                     // RSA
    case 1 => (2, DERIVE + MAC + WRAP + ENCRYPT + DECRYPT)                                  // ECC
    case 2 => (150, DERIVE + MAC + WRAP)                                                    // SM2
    case 3 => (151, DERIVE + SIGN + VERIFY + WRAP + UNWRAP + ENCRYPT + DECRYPT + AGREE)     // SM3
    case 4 => (152, SIGN + VERIFY + WRAP + UNWRAP + MAC + AGREE)                            // SM4
    case 5 => (20, SIGN + VERIFY + AGREE + WRAP + UNWRAP)                                   // AES
    case 6 => (160, SIGN + VERIFY + AGREE + WRAP + UNWRAP)                                  // DES
    case 7 => (161, SIGN + VERIFY + AGREE + WRAP + UNWRAP)                                  // 3DES
    case 8 => (102, DERIVE + MAC + WRAP + UNWRAP + ENCRYPT + DECRYPT)                       // ED25519
    case 9 => (101, DERIVE + MAC + ENCRYPT + DECRYPT + WRAP)                                // X25519
    case 10 => (50, DERIVE + SIGN + VERIFY + WRAP + UNWRAP + ENCRYPT + DECRYPT + AGREE)     // HMAC
    case 11 => (162, DERIVE + SIGN + VERIFY + WRAP + UNWRAP + ENCRYPT + DECRYPT + AGREE)    // CMAC
    case 12 => (3, DERIVE + MAC + WRAP + UNWRAP + ENCRYPT + DECRYPT + AGREE)                // DSA
    case 13 => (103, DERIVE + MAC + WRAP + UNWRAP + ENCRYPT + DECRYPT + SIGN + VERIFY)      // DH
    case _ => (100, DERIVE + MAC + WRAP + UNWRAP + ENCRYPT + DECRYPT + SIGN + VERIFY)       // ECDH
  }

  /** g_invalidImportKeyPurpose: ECC, X25519, SM2. */
  const INVALID_IMPORT_PURPOSE: Table := [(2, WRAP + UNWRAP), (101, WRAP + UNWRAP), (150, WRAP + UNWRAP)]

  /** The entry of the table for the algorithm: the first one counts. */
  function Entry(table: Table, alg: u32): Option<Bits> {
    if table == [] then None
    else if table[0].0 == alg then Some(table[0].1)
    else Entry(table[1..], alg)
  }

  function OrNone(o: Option<Bits>): Bits {
    if o.Some? then o.value else {}
  }

  /** The bits a purpose for the algorithm must not have. */
  function Forbidden(t: Tables, alg: u32, keyFlag: u32): Bits {
    OrNone(Entry(t.invalid, alg)) +
    if keyFlag == HKS_KEY_FLAG_IMPORT_KEY then OrNone(Entry(t.invalidImport, alg)) else {}
  }

  /** One of the two table loops of GetInvalidPurpose. */
  method FindEntry(table: Table, alg: u32) returns (found: Option<Bits>)
    ensures found == Entry(table, alg)
  {
    for i := 0 to |table|
      invariant Entry(table, alg) == Entry(table[i..], alg)
    {
      if alg == table[i].0 {
        return Some(table[i].1);
      }
      assert table[i..][1..] == table[i + 1..];
    }
    return None;
  }

  method GetInvalidPurpose(t: Tables, alg: u32, keyFlag: u32) returns (ret: Status, purpose: Bits)
    ensures ret == if Entry(t.invalid, alg).Some? then Success else InvalidAlgorithm
    ensures purpose == Forbidden(t, alg, keyFlag)
  {
    var found := FindEntry(t.invalid, alg);
    ret := if found.Some? then Success else InvalidAlgorithm;
    purpose := OrNone(found);
    if keyFlag == HKS_KEY_FLAG_IMPORT_KEY {
      var more := FindEntry(t.invalidImport, alg);
      purpose := purpose + OrNone(more);
    }
  }

  /** A key of the algorithm may have the purpose. */
  predicate Acceptable(t: Tables, alg: u32, purpose: Bits, keyFlag: u32) {
    InOneGroup(purpose) && Entry(t.invalid, alg).Some? && purpose * Forbidden(t, alg, keyFlag) == {}
  }

  /** HksCheckGenKeyPurpose, with CheckPurposeValid. */
  method HksCheckGenKeyPurpose(alg: u32, inputPurpose: Bits, keyFlag: u32) returns (ret: Status)
    ensures ret == Success <==> Acceptable(TABLES, alg, inputPurpose, keyFlag)
    ensures ret == InvalidAlgorithm <==> InOneGroup(inputPurpose) && Entry(TABLES.invalid, alg).None?
    ensures ret in {Success, InvalidPurpose, InvalidAlgorithm}
  {
    ret := CheckPurposeUnique(inputPurpose);
    if ret != Success {
      return;
    }
    var invalidPurpose;
    ret, invalidPurpose := GetInvalidPurpose(TABLES, alg, keyFlag);
    if ret != Success {
      return;
    }
    if inputPurpose * invalidPurpose != {} {
      return InvalidPurpose;
    }
  }

  /** What may be imported may be generated; the converse fails exactly where the second table
      forbids a bit. */
  lemma ImportWithinGenerate(t: Tables, alg: u32, purpose: Bits, keyFlag: u32)
    requires keyFlag != HKS_KEY_FLAG_IMPORT_KEY
    ensures Acceptable(t, alg, purpose, HKS_KEY_FLAG_IMPORT_KEY) <==>
            Acceptable(t, alg, purpose, keyFlag) && purpose * OrNone(Entry(t.invalidImport, alg)) == {}
  {
    var a, b := OrNone(Entry(t.invalid, alg)), OrNone(Entry(t.invalidImport, alg));
    assert purpose * (a + b) == purpose * a + purpose * b && a + {} == a;
  }

  // ----- In bits and algorithm numbers -----

  /** Which of the bits 0 to 8 (encrypt, decrypt, sign, verify, derive, wrap, unwrap, MAC, agree) a key
      of each algorithm may have. */
  function Allowed(alg: u32, imported: bool): Option<set<nat>> {
    match alg
    case 1 => Some({0, 1, 2, 3})                                                  // RSA
    case 2 => Some(if imported then {2, 3, 8} else {2, 3, 6, 8})                  // ECC
    case 3 => Some({2, 3})                                                        // DSA
    case 20 => Some({0, 1, 4, 7})                                                 // AES
    case 50 => Some({7})                                                          // HMAC
    case 100 => Some({8})                                                         // ECDH
    case 101 => Some(if imported then {2, 3, 8} else {2, 3, 6, 8})                // X25519
    case 102 => Some({2, 3, 8})                                                   // ED25519
    case 103 => Some({8})                                                         // DH
    case 150 => Some(if imported then {0, 1, 2, 3, 8} else {0, 1, 2, 3, 6, 8})    // SM2
    case 151 => Some({7})                                                         // SM3
    case 152 => Some({0, 1, 4})                                                   // SM4
    case 160 => Some({0, 1, 4, 7})                                                // DES
    case 161 => Some({0, 1, 4, 7})                                                // 3DES
    case 162 => Some({7})                                                         // CMAC
    case _ => None
  }

  function One(b: bool): nat {
    if b then 1 else 0
  }

  /** A purpose is acceptable exactly if the algorithm is known, all its bits among the first nine are
      allowed, and they are of one kind. */
  lemma AcceptableIff(alg: u32, p: Bits, keyFlag: u32)
    ensures Acceptable(TABLES, alg, p, keyFlag) <==>
            && Allowed(alg, keyFlag == 1).Some?
            && (forall b :: b in p && b <= 8 ==> b in Allowed(alg, keyFlag == 1).value)
            && One(0 in p || 1 in p) + One(2 in p || 3 in p) + One(4 in p) + One(5 in p || 6 in p)
               + One(7 in p) + One(8 in p) == 1
  {
    OneKind(p);
    KnownPlainly(alg, keyFlag == 1);
    if Allowed(alg, keyFlag == 1).Some? {
      ForbiddenPlainly(alg, p, keyFlag);
    }
  }

  lemma OneKind(p: Bits)
    ensures InOneGroup(p) <==>
            One(0 in p || 1 in p) + One(2 in p || 3 in p) + One(4 in p) + One(5 in p || 6 in p)
            + One(7 in p) + One(8 in p) == 1
  {
    OneGroupIff(p);
    KindsPlainly(p);
  }

  lemma KindsPlainly(p: Bits)
    ensures In(p, 0) <==> 0 in p || 1 in p
    ensures In(p, 1) <==> 2 in p || 3 in p
    ensures In(p, 2) <==> 4 in p
    ensures In(p, 3) <==> 5 in p || 6 in p
    ensures In(p, 4) <==> 7 in p
    ensures In(p, 5) <==> 8 in p
  {
    assert In(p, 0) ==> exists b :: b in p * Group(0);
    assert 0 in p ==> 0 in p * Group(0);
    assert 1 in p ==> 1 in p * Group(0);
    assert 2 in p ==> 2 in p * Group(1);
    assert 3 in p ==> 3 in p * Group(1);
    assert 4 in p ==> 4 in p * Group(2);
    assert 5 in p ==> 5 in p * Group(3);
    assert 6 in p ==> 6 in p * Group(3);
    assert 7 in p ==> 7 in p * Group(4);
    assert 8 in p ==> 8 in p * Group(5);
  }

  /** The entry of a table, by index. */
  lemma {:induction false} EntryIs(table: Table, alg: u32, i: nat)
    requires i <= |table| && (forall j :: 0 <= j < i ==> table[j].0 != alg) && (i < |table| ==> table[i].0 == alg)
    ensures Entry(table, alg) == if i < |table| then Some(table[i].1) else None
  {
    if i > 0 {
      assert forall j :: 0 <= j < i - 1 ==> table[1..][j] == table[j + 1];
      assert i < |table| ==> table[1..][i - 1] == table[i];
      EntryIs(table[1..], alg, i - 1);
    }
  }

  function Index(alg: u32): nat {
    match alg
    case 1 => 0 case 2 => 1 case 150 => 2 case 151 => 3 case 152 => 4 case 20 => 5 case 160 => 6 case 161 => 7
    case 102 => 8 case 101 => 9 case 50 => 10 case 162 => 11 case 3 => 12 case 103 => 13 case 100 => 14
    case _ => 15
  }

  lemma IndexIs(alg: u32)
    ensures |INVALID_PURPOSE| == 15 && Index(alg) <= 15
    ensures forall j :: 0 <= j < Index(alg) ==> INVALID_PURPOSE[j].0 != alg
    ensures Index(alg) < 15 ==> INVALID_PURPOSE[Index(alg)].0 == alg
  {
  }

  lemma FirstEntry(alg: u32)
    ensures Index(alg) <= 15 == |INVALID_PURPOSE|
    ensures Entry(TABLES.invalid, alg) == if Index(alg) < 15 then Some(INVALID_PURPOSE[Index(alg)].1) else None
  {
    IndexIs(alg);
    EntryIs(INVALID_PURPOSE, alg, Index(alg));
  }

  lemma SecondEntry(alg: u32)
    ensures Entry(TABLES.invalidImport, alg) == if alg in {2, 101, 150} then Some({5, 6}) else None
  {
    EntryIs(INVALID_IMPORT_PURPOSE, alg, if alg == 2 then 0 else if alg == 101 then 1 else if alg == 150 then 2 else 3);
    assert WRAP + UNWRAP == {5, 6};
  }

  /** The bits of an entry are those of the first nine that its algorithm is not allowed. */
  lemma BitPlainly(i: nat, b: nat)
    requires i < 15 == |INVALID_PURPOSE|
    ensures Allowed(INVALID_PURPOSE[i].0, false).Some?
    ensures b in INVALID_PURPOSE[i].1 <==> b <= 8 && b !in Allowed(INVALID_PURPOSE[i].0, false).value
  {
    match i
    case 0 => case 1 => case 2 => case 3 => case 4 => case 5 => case 6 => case 7 =>
    case 8 => case 9 => case 10 => case 11 => case 12 => case 13 => case _ =>
  }

  lemma IndexedIsAllowed(alg: u32, imported: bool)
    ensures Index(alg) < 15 <==> Allowed(alg, imported).Some?
  {
  }

  lemma KnownPlainly(alg: u32, imported: bool)
    ensures Entry(TABLES.invalid, alg).Some? <==> Allowed(alg, imported).Some?
  {
    FirstEntry(alg);
    IndexedIsAllowed(alg, imported);
  }

  lemma FirstBit(alg: u32, b: nat)
    requires Allowed(alg, false).Some?
    ensures b in OrNone(Entry(TABLES.invalid, alg)) <==> b <= 8 && b !in Allowed(alg, false).value
  {
    FirstEntry(alg);
    IndexIs(alg);
    IndexedIsAllowed(alg, false);
    BitPlainly(Index(alg), b);
  }

  lemma SecondBit(alg: u32, b: nat)
    requires Allowed(alg, false).Some?
    ensures Allowed(alg, true).Some?
    ensures b in Allowed(alg, true).value <==>
            b in Allowed(alg, false).value && !(alg in {2, 101, 150} && b in {5, 6})
  {
  }

  lemma ForbiddenBit(alg: u32, b: nat, keyFlag: u32)
    requires Allowed(alg, keyFlag == 1).Some?
    ensures b in Forbidden(TABLES, alg, keyFlag) <==> b <= 8 && b !in Allowed(alg, keyFlag == 1).value
  {
    IndexedIsAllowed(alg, false);
    IndexedIsAllowed(alg, true);
    FirstBit(alg, b);
    SecondBit(alg, b);
    SecondEntry(alg);
  }

  lemma ForbiddenPlainly(alg: u32, p: Bits, keyFlag: u32)
    requires Allowed(alg, keyFlag == 1).Some?
    ensures p * Forbidden(TABLES, alg, keyFlag) == {} <==>
            forall b :: b in p && b <= 8 ==> b in Allowed(alg, keyFlag == 1).value
  {
    var f := Forbidden(TABLES, alg, keyFlag);
    forall b: nat
      ensures b in f <==> b <= 8 && b !in Allowed(alg, keyFlag == 1).value
    {
      ForbiddenBit(alg, b, keyFlag);
    }
    assert p * f == {} <==> forall b :: b in p ==> b !in f;
  }

  /** The batch test of CoreCheckGenKeyParams: no bit outside the purpose. */
  method CheckBatchPurpose(purpose: Bits, batch: Option<Bits>) returns (ret: Status)
    ensures ret == if batch.Some? && Outside(batch.value, purpose) then InvalidPurpose else Success
  {
    if batch.Some? && purpose + batch.value != purpose {
      return InvalidPurpose;
    }
    return Success;
  }

  /** `batch` has a bit that `purpose` does not have. */
  predicate Outside(batch: Bits, purpose: Bits) {
    !(batch <= purpose)
  }

  lemma OutsideIff(batch: Bits, purpose: Bits)
    ensures Outside(batch, purpose) <==> exists b :: b in batch && b !in purpose
  {
  }

  lemma SubsetBits(batch: Bits, purpose: Bits, mask: Bits)
    requires !Outside(batch, purpose) && purpose * mask == {}
    ensures batch * mask == {}
  {
  }

  /** A batch purpose that passes stays within the one group of the purpose, and unless it names
      no purpose at all it is acceptable for the algorithm itself. */
  lemma BatchStaysInGroup(t: Tables, alg: u32, purpose: Bits, keyFlag: u32, batch: Bits, i: nat)
    requires Acceptable(t, alg, purpose, keyFlag) && i < 6 && OnlyIn(purpose, i) && !Outside(batch, purpose)
    ensures forall j :: 0 <= j < 6 && j != i ==> !In(batch, j)
    ensures Acceptable(t, alg, batch, keyFlag) <==> In(batch, i)
  {
    forall j | 0 <= j < 6 && j != i
      ensures !In(batch, j)
    {
      assert !In(purpose, j);
      SubsetBits(batch, purpose, Group(j));
    }
    SubsetBits(batch, purpose, Forbidden(t, alg, keyFlag));
    if In(batch, i) {
      assert OnlyIn(batch, i);
    }
  }
}
