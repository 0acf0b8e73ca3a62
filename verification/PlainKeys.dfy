/** Key material once more, in header words, slices and numbers only. */
module PlainKeys {
  import opened CTypes
  import opened Memory
  import opened ParamLayout
  import opened ParamRefresh
  import opened KeyMaterial
  import opened KeyPublic
  import opened KeyFormat
  import opened KeyExport
  import KeyCheck
  import PlainParams
  import Curve25519

  // ----- The format -----

  /** A header word: four bytes, least significant first. */
  lemma WordPlainly(b: seq<byte>, i: nat)
    requires 4 * i + 4 <= |b|
    ensures Word(b, i) == b[4 * i] as int + 0x100 * (b[4 * i + 1] as int + 0x100 * (b[4 * i + 2] as int + 0x100 * b[4 * i + 3] as int))
  {
    LoadIs(b[4 * i..]);
  }

  lemma EncodeWordsCons(w: u32, ws: seq<u32>)
    ensures EncodeWords([w] + ws) == StoreU32(w) + EncodeWords(ws) && EncodeWords([]) == []
  {
    assert ([w] + ws)[1..] == ws;
  }

  lemma FlattenCons(p: seq<byte>, parts: seq<seq<byte>>)
    ensures Flatten([p] + parts) == p + Flatten(parts) && Flatten([]) == []
  {
    assert ([p] + parts)[1..] == parts;
  }

  lemma FiveWords(a: u32, b: u32, c: u32, d: u32, e: u32)
    ensures EncodeWords([a, b, c, d, e]) == StoreU32(a) + StoreU32(b) + StoreU32(c) + StoreU32(d) + StoreU32(e)
  {
    EncodeWordsCons(e, []);
    EncodeWordsCons(d, [e]);
    EncodeWordsCons(c, [d, e]);
    EncodeWordsCons(b, [c, d, e]);
    EncodeWordsCons(a, [b, c, d, e]);
    assert [e] == [e] + [] && [d, e] == [d] + [e] && [c, d, e] == [c] + [d, e] && [b, c, d, e] == [b] + [c, d, e];
    assert [a, b, c, d, e] == [a] + [b, c, d, e];
  }

  lemma TwoParts(p: seq<byte>, q: seq<byte>)
    ensures Flatten([p, q]) == p + q
  {
    FlattenCons(q, []);
    FlattenCons(p, [q]);
    assert [q] == [q] + [] && [p, q] == [p] + [q] && q + [] == q;
  }

  lemma ThreeParts(p: seq<byte>, q: seq<byte>, r: seq<byte>)
    ensures Flatten([p, q, r]) == p + q + r
  {
    TwoParts(q, r);
    FlattenCons(p, [q, r]);
    assert [p, q, r] == [p] + [q, r];
    Concat3(p, q, r);
  }

  /** RSA, EC and SM2 material: algorithm, key size, three sizes, three components. */
  lemma ThreePartMaterial(f: Family, alg: u32, size: u32, p: seq<byte>, q: seq<byte>, r: seq<byte>)
    requires (f.Rsa? || f.Ecc?) && |p| < 0x1_0000_0000 && |q| < 0x1_0000_0000 && |r| < 0x1_0000_0000
    ensures Fits(f, Material(alg, size, [p, q, r], []))
    ensures Encode(f, Material(alg, size, [p, q, r], [])) ==
            StoreU32(alg) + StoreU32(size) + StoreU32(|p|) + StoreU32(|q|) + StoreU32(|r|) + (p + q + r)
  {
    var k := Material(alg, size, [p, q, r], []);
    assert HeaderWords(k) == [alg, size, |p|, |q|, |r|];
    FiveWords(alg, size, |p|, |q|, |r|);
    ThreeParts(p, q, r);
  }

  /** 25519 and DH material: the public and the private key, and a reserved word. */
  lemma TwoPartMaterial(f: Family, alg: u32, size: u32, p: seq<byte>, q: seq<byte>, reserved: u32)
    requires (f.Curve? || f.Dh?) && |p| < 0x1_0000_0000 && |q| < 0x1_0000_0000
    ensures Fits(f, Material(alg, size, [p, q], [reserved]))
    ensures Encode(f, Material(alg, size, [p, q], [reserved])) ==
            StoreU32(alg) + StoreU32(size) + StoreU32(|p|) + StoreU32(|q|) + StoreU32(reserved) + (p + q)
  {
    var k := Material(alg, size, [p, q], [reserved]);
    assert HeaderWords(k) == [alg, size, |p|, |q|, reserved];
    FiveWords(alg, size, |p|, |q|, reserved);
    TwoParts(p, q);
  }

  /** DSA material: x, which is private, y, p, q, g. */
  lemma DsaMaterial(alg: u32, size: u32, x: seq<byte>, y: seq<byte>, p: seq<byte>, q: seq<byte>, g: seq<byte>)
    requires |x| < 0x1_0000_0000 && |y| < 0x1_0000_0000 && |p| < 0x1_0000_0000 && |q| < 0x1_0000_0000 && |g| < 0x1_0000_0000
    ensures Fits(Dsa, Material(alg, size, [x, y, p, q, g], []))
    ensures Encode(Dsa, Material(alg, size, [x, y, p, q, g], [])) ==
            StoreU32(alg) + (StoreU32(size) + (StoreU32(|x|) + StoreU32(|y|) + StoreU32(|p|) + StoreU32(|q|) + StoreU32(|g|)))
            + (x + (y + (p + q + g)))
  {
    var k := Material(alg, size, [x, y, p, q, g], []);
    assert HeaderWords(k) == [alg, size, |x|, |y|, |p|, |q|, |g|];
    SevenWords(alg, size, |x|, |y|, |p|, |q|, |g|);
    FiveParts(x, y, p, q, g);
  }

  lemma SevenWords(a: u32, b: u32, c: u32, d: u32, e: u32, f: u32, g: u32)
    ensures EncodeWords([a, b, c, d, e, f, g]) ==
            StoreU32(a) + (StoreU32(b) + (StoreU32(c) + StoreU32(d) + StoreU32(e) + StoreU32(f) + StoreU32(g)))
  {
    FiveWords(c, d, e, f, g);
    EncodeWordsCons(b, [c, d, e, f, g]);
    EncodeWordsCons(a, [b] + [c, d, e, f, g]);
    assert [a, b, c, d, e, f, g] == [a] + ([b] + [c, d, e, f, g]);
  }

  lemma FiveParts(x: seq<byte>, y: seq<byte>, p: seq<byte>, q: seq<byte>, g: seq<byte>)
    ensures Flatten([x, y, p, q, g]) == x + (y + (p + q + g))
  {
    ThreeParts(p, q, g);
    FlattenCons(y, [p, q, g]);
    FlattenCons(x, [y] + [p, q, g]);
    assert [x, y, p, q, g] == [x] + ([y] + [p, q, g]);
  }

  // ----- The check on import -----

  /** RSA: n, e and d of 1 to 4096 bytes. */
  lemma RsaCheckPlainly(alg: u32, keyType: u32, keyLen: u32, b: seq<byte>)
    ensures KeyCheck.IsMaterial(Rsa, alg, keyType, keyLen, b) <==>
            && |b| >= 20 && Word(b, 0) == alg && Word(b, 1) == keyLen
            && 1 <= Word(b, 2) <= 4096 && 1 <= Word(b, 3) <= 4096 && 1 <= Word(b, 4) <= 4096
            && 20 + Word(b, 2) as int + Word(b, 3) + Word(b, 4) <= |b|
  {
    KeyCheck.IsMaterialIff(Rsa, alg, keyType, keyLen, b);
    if |b| >= 20 {
      KeyCheck.ThreeSizes(Rsa, keyType, PartSizes(Rsa, b));
    }
  }

  /** EC and SM2: z of 1 to 521 bytes; x and y of at most 521, and of 1 at least in a key pair. */
  lemma EccCheckPlainly(alg: u32, keyType: u32, keyLen: u32, b: seq<byte>)
    ensures KeyCheck.IsMaterial(Ecc, alg, keyType, keyLen, b) <==>
            && |b| >= 20 && Word(b, 0) == alg && Word(b, 1) == keyLen
            && Word(b, 2) <= 521 && Word(b, 3) <= 521 && 1 <= Word(b, 4) <= 521
            && (keyType == 2 ==> Word(b, 2) >= 1 && Word(b, 3) >= 1)
            && 20 + Word(b, 2) as int + Word(b, 3) + Word(b, 4) <= |b|
  {
    KeyCheck.IsMaterialIff(Ecc, alg, keyType, keyLen, b);
    if |b| >= 20 {
      KeyCheck.ThreeSizes(Ecc, keyType, PartSizes(Ecc, b));
    }
  }

  /** DSA: x, p, q and g of 1 to 2048 bytes, y of at most 2048, and of 1 at least in a key pair. */
  lemma DsaCheckPlainly(alg: u32, keyType: u32, keyLen: u32, b: seq<byte>)
    ensures KeyCheck.IsMaterial(Dsa, alg, keyType, keyLen, b) <==>
            && |b| >= 28 && Word(b, 0) == alg && Word(b, 1) == keyLen
            && 1 <= Word(b, 2) <= 2048 && Word(b, 3) <= 2048
            && 1 <= Word(b, 4) <= 2048 && 1 <= Word(b, 5) <= 2048 && 1 <= Word(b, 6) <= 2048
            && (keyType == 2 ==> Word(b, 3) >= 1)
            && 28 + Word(b, 2) as int + Word(b, 3) + Word(b, 4) + Word(b, 5) + Word(b, 6) <= |b|
  {
    KeyCheck.IsMaterialIff(Dsa, alg, keyType, keyLen, b);
    if |b| >= 28 {
      KeyCheck.FiveSizes(Dsa, keyType, PartSizes(Dsa, b));
    }
  }

  /** 25519 and DH: a private key of 1 to 256 (4096) bytes and a public one, not empty in a pair. */
  lemma PairCheckPlainly(f: Family, alg: u32, keyType: u32, keyLen: u32, b: seq<byte>)
    requires f.Curve? || f.Dh?
    ensures KeyCheck.IsMaterial(f, alg, keyType, keyLen, b) <==>
            var limit := if f.Dh? then 4096 else 256;
            && |b| >= 20 && Word(b, 0) == alg && Word(b, 1) == keyLen
            && Word(b, 2) <= limit && 1 <= Word(b, 3) <= limit && (keyType == 2 ==> Word(b, 2) >= 1)
            && 20 + Word(b, 2) as int + Word(b, 3) <= |b|
  {
    KeyCheck.IsMaterialIff(f, alg, keyType, keyLen, b);
    if |b| >= 20 {
      KeyCheck.TwoSizes(f, keyType, PartSizes(f, b));
    }
  }

  lemma FamiliesPlainly(alg: u32)
    ensures KeyCheck.FamilyOf(alg) ==
            match alg
            case 1 => Some(Rsa)
            case 2 => Some(Ecc)
            case 3 => Some(Dsa)
            case 101 => Some(Curve)
            case 102 => Some(Curve)
            case 103 => Some(Dh)
            case 150 => Some(Ecc)
            case _ => None
  {
  }

  // ----- The public part -----

  /** RSA and EC: everything up to the private component, with its size set to zero. */
  lemma CopyThreeParts(f: Family, key: seq<byte>, env: Platform)
    requires (f.Rsa? || f.Ecc?) && 20 <= |key| < 0x1_0000_0000 && 20 + Word(key, 2) as int + Word(key, 3) <= |key|
    ensures var n := 20 + Word(key, 2) as int + Word(key, 3);
            CopyPublic(f, key, env) == if n <= 8_388_608 && env.mallocOk(n) then Copied(key[..16] + [0, 0, 0, 0] + key[20..n])
                                       else Failed(Returned(MallocFail))
  {
    ThreePublicPart(f, key);
    PublicPartIsCopied(f, key, env);
  }

  lemma ThreePublicPart(f: Family, key: seq<byte>)
    requires (f.Rsa? || f.Ecc?) && 20 <= |key| < 0x1_0000_0000 && 20 + Word(key, 2) as int + Word(key, 3) <= |key|
    ensures var n := 20 + Word(key, 2) as int + Word(key, 3);
            && HeaderBytes(f) + PublicSize(f, key) == n && PublicStart(f, key) == 20
            && PublicPart(f, key) == key[..16] + [0, 0, 0, 0] + key[20..n]
  {
    PublicSizeWords(f, key);
    StoreIs(0);
    ZeroedPrefix(key, 20, 16, 20 + Word(key, 2) as int + Word(key, 3));
  }

  lemma CopyDh(key: seq<byte>, env: Platform)
    requires 20 <= |key| < 0x1_0000_0000 && 20 + Word(key, 2) as int <= |key|
    ensures var n := 20 + Word(key, 2) as int;
            CopyPublic(Dh, key, env) == if n <= 8_388_608 && env.mallocOk(n) then Copied(key[..12] + [0, 0, 0, 0] + key[16..n])
                                        else Failed(Returned(MallocFail))
  {
    PublicSizeWords(Dh, key);
    PublicPartIsCopied(Dh, key, env);
    StoreIs(0);
    ZeroedPrefix(key, 20, 12, 20 + Word(key, 2) as int);
  }

  /** DSA: the header with a zero size for x, and what lies behind x. */
  lemma CopyDsaPlainly(key: seq<byte>, env: Platform)
    requires 28 <= |key| < 0x1_0000_0000
    requires 28 + Word(key, 2) as int + Word(key, 3) + Word(key, 4) + Word(key, 5) + Word(key, 6) <= |key|
    ensures var x, n := Word(key, 2) as int, Word(key, 3) as int + Word(key, 4) + Word(key, 5) + Word(key, 6);
            CopyPublic(Dsa, key, env) ==
            if 28 + n <= 8_388_608 && env.mallocOk(28 + n)
            then Copied(key[..8] + [0, 0, 0, 0] + key[12..28] + key[28 + x..28 + x + n]) else Failed(Returned(MallocFail))
  {
    DsaPublicPart(key);
    PublicPartIsCopied(Dsa, key, env);
  }

  lemma DsaPublicPart(key: seq<byte>)
    requires 28 <= |key| < 0x1_0000_0000
    requires 28 + Word(key, 2) as int + Word(key, 3) + Word(key, 4) + Word(key, 5) + Word(key, 6) <= |key|
    ensures var x, n := Word(key, 2) as int, Word(key, 3) as int + Word(key, 4) + Word(key, 5) + Word(key, 6);
            && PublicSize(Dsa, key) == n && PublicStart(Dsa, key) == 28 + x
            && PublicPart(Dsa, key) == key[..8] + [0, 0, 0, 0] + key[12..28] + key[28 + x..28 + x + n]
  {
    PublicSizeWords(Dsa, key);
    StoreIs(0);
    ZeroedAround(key, 28, 8, 28 + Word(key, 2) as int, PublicSize(Dsa, key));
  }

  /** A header with the four bytes at `at` set to zero, and `n` bytes from `start` on. */
  lemma ZeroedAround(key: seq<byte>, h: nat, at: nat, start: nat, n: nat)
    requires at + 4 <= h <= |key| && start + n <= |key|
    ensures Overwrite(key[..h], at, [0, 0, 0, 0]) + key[start..][..n] ==
            key[..at] + [0, 0, 0, 0] + key[at + 4..h] + key[start..start + n]
  {
    var head := key[..h];
    assert head[..at] == key[..at] && head[at + 4..] == key[at + 4..h];
    assert key[start..][..n] == key[start..start + n];
  }

  lemma ZeroedPrefix(key: seq<byte>, h: nat, at: nat, n: nat)
    requires at + 4 <= h <= n <= |key|
    ensures Overwrite(key[..h], at, [0, 0, 0, 0]) + key[h..][..n - h] == key[..at] + [0, 0, 0, 0] + key[at + 4..n]
  {
    ZeroedAround(key, h, at, h, n - h);
    assert key[at + 4..h] + key[h..n] == key[at + 4..n];
    Concat3(key[..at] + [0, 0, 0, 0], key[at + 4..h], key[h..n]);
  }

  /** Material that is too short, for its header or for what the header says. */
  lemma TooShortPlainly(f: Family, key: seq<byte>, env: Platform)
    requires !f.Curve? && |key| < 0x1_0000_0000
    ensures |key| < (if f.Dsa? then 28 else 20) ==> CopyPublic(f, key, env) == Failed(Returned(InvalidArgument))
    ensures |key| >= 28 && f.Dsa? &&
            (28 + Word(key, 3) as int + Word(key, 4) + Word(key, 5) + Word(key, 6)) % 0x1_0000_0000 > |key| ==>
              CopyPublic(f, key, env) == Failed(Returned(InvalidKeyInfo))
    ensures |key| >= 20 && (f.Rsa? || f.Ecc?) && (20 + Word(key, 2) as int + Word(key, 3)) % 0x1_0000_0000 > |key| ==>
              CopyPublic(f, key, env) == Failed(Returned(InvalidKeyInfo))
    ensures |key| >= 20 && f.Dh? && (20 + Word(key, 2) as int) % 0x1_0000_0000 > |key| ==>
              CopyPublic(f, key, env) == Failed(Returned(InvalidKeyInfo))
  {
    if HeaderBytes(f) <= |key| {
      PublicSizeWords(f, key);
    }
  }

  // ----- The set that is handed out -----

  lemma RoomPlainly(pubSize: nat, priSize: nat, room: nat, env: Platform)
    ensures Room(pubSize, priSize, room, env) <==>
            && env.mallocOk(1024) && 56 + pubSize + priSize <= 4_194_304
            && (56 + pubSize + priSize > 1024 ==> env.mallocOk(56 + pubSize + priSize))
            && (env.emptyCopyOk || priSize > 0)
            && 56 + pubSize + priSize <= room <= 0x7FFF_FFFF
    ensures 56 + pubSize + priSize <= 4_194_304 && !Room(pubSize, priSize, room, env) ==>
              KeysResult(pubSize, priSize, room, env) ==
              if !env.mallocOk(1024) || (56 + pubSize + priSize > 1024 && !env.mallocOk(56 + pubSize + priSize))
              then MallocFail else InsufficientMemory
  {
  }

  /** A set that holds two keys: two parameters with these tags, and the keys one after the other
      behind them. */
  lemma HoldsKeysPlainly(m: Blocks, ps: seq<Param>, block: nat, size: nat, pub: seq<byte>, pri: seq<byte>)
    requires HoldsKeys(m, ps, block, size, pub, pri)
    ensures |ps| == 2 && ps[0].tag == 0x5000_4E22 && ps[1].tag == 0x5000_4E23
    ensures ps[0].data == At(block, 56) && ps[0].word % 0x1_0000_0000 == |pub|
    ensures ps[1].data == At(block, 56 + |pub|) && ps[1].word % 0x1_0000_0000 == |pri|
    ensures size == 56 + |pub| + |pri| && block in m && size <= |m[block]|
    ensures m[block][56..56 + |pub|] == pub && m[block][56 + |pub|..size] == pri
  {
    EntriesLength(m, ps);
    PlainParams.EntriesPlainly(m, ps, 0);
    PlainParams.EntriesPlainly(m, ps, 1);
    PlainParams.BuiltIff(m, ps, block, size);
    var p, q := ps[0], ps[1];
    assert |m[p.data.block][p.data.off..p.data.off + p.word % 0x1_0000_0000]| == |pub|;
    assert |m[q.data.block][q.data.off..q.data.off + q.word % 0x1_0000_0000]| == |pri|;
    PlainParams.TotalPlainly([], p);
    PlainParams.TotalPlainly([p], q);
    assert [] + [p] == [p] && [p] + [q] == ps && ps[..0] == [] && ps[..1] == [p];
  }

  lemma ListOfPlainly(s: ParamSet)
    ensures ListOf(s) == if s.paramsCnt <= s.params.Length then s.params[..s.paramsCnt] else []
  {
  }

  /** How handing out two keys ends. */
  lemma KeysOutcomeIff(pub: seq<byte>, pri: seq<byte>, room: nat, env: Platform, m: Blocks,
                       ret: Status, m': Blocks, ps: seq<Param>, block: nat, size: nat)
    ensures KeysOutcome(pub, pri, room, env, m, ret, m', ps, block, size) <==>
            && (ret == Success <==> Room(|pub|, |pri|, room, env))
            && (56 + |pub| + |pri| <= 4_194_304 ==> ret == KeysResult(|pub|, |pri|, room, env))
            && (ret == Success ==> HoldsKeys(m', ps, block, size, pub, pri))
            && (forall b :: b in m && b != block ==> b in m' && m'[b] == m[b])
  {
  }

  /** When FormatRsaKey and its siblings succeed, from the size of the public part. */
  lemma FormatPlainly(f: Family, key: seq<byte>, room: nat, env: Platform, m: Blocks,
                      end: Ended, m': Blocks, ps: seq<Param>, block: nat, size: nat, pub: seq<byte>)
    requires FormatOutcome(f, key, room, env, m, end, m', ps, block, size)
    ensures CopyPublic(f, key, env) == Copied(pub) ==>
              && end.Returned? && (end.ret == Success <==> Room(|pub|, |key|, room, env))
              && (end.ret == Success ==> HoldsKeys(m', ps, block, size, pub, key))
              && (forall b :: b in m && b != block ==> b in m' && m'[b] == m[b])
    ensures CopyPublic(f, key, env).Failed? ==> end == CopyPublic(f, key, env).end && (end.Returned? ==> m' == m)
  {
  }

  // ----- Cutting -----

  lemma ShowsPlainly(b: seq<byte>, s: Span, part: seq<byte>)
    ensures Shows(b, s, part) <==> s.size == |part| && s.off + s.size <= |b| && b[s.off..s.off + s.size] == part
  {
  }

  lemma GotDsaPlainly(b: seq<byte>, ret: Status, y: Span, p: Span, q: Span, g: Span)
    requires GotDsa(b, ret, y, p, q, g)
    ensures ret == (if |b| >= 28 && (28 + Word(b, 2) as int + Word(b, 3) + Word(b, 4) + Word(b, 5) + Word(b, 6)) % 0x1_0000_0000 <= |b|
                    then Success else InvalidArgument)
    ensures ret == Success ==>
              && y == Span((28 + Word(b, 2) as int) % 0x1_0000_0000, Word(b, 3))
              && p == Span((y.off as int + y.size) % 0x1_0000_0000, Word(b, 4))
              && q == Span((p.off as int + p.size) % 0x1_0000_0000, Word(b, 5))
              && g == Span((q.off as int + q.size) % 0x1_0000_0000, Word(b, 6))
  {
    if |b| >= 28 {
      SumOfFive(PartSizes(Dsa, b));
    }
  }

  /** The components of complete material, as slices. */
  lemma ThreePartsPlainly(f: Family, key: seq<byte>)
    requires (f.Rsa? || f.Ecc?) && 20 <= |key| && 20 + Word(key, 2) as int + Word(key, 3) + Word(key, 4) <= |key|
    ensures Complete(f, key)
    ensures var a, b := 20 + Word(key, 2) as int, 20 + Word(key, 2) as int + Word(key, 3);
            Decode(f, key).parts == [key[20..a], key[a..b], key[b..b + Word(key, 4)]]
  {
    var ns := PartSizes(f, key);
    SumOfThree(ns);
    SumOfTwo(ns[1..]);
    var body := key[20..];
    CutThree(body, ns);
    var a, b := 20 + Word(key, 2) as int, 20 + Word(key, 2) as int + Word(key, 3);
    assert body[..ns[0]] == key[20..a] && body[ns[0]..][..ns[1]] == key[a..b]
        && body[ns[0]..][ns[1]..][..ns[2]] == key[b..b + Word(key, 4)];
  }

  lemma CutThree(b: seq<byte>, ns: seq<nat>)
    requires |ns| == 3 && Sum(ns) <= |b|
    ensures ns[0] + ns[1] + ns[2] <= |b|
    ensures Cut(b, ns) == [b[..ns[0]], b[ns[0]..][..ns[1]], b[ns[0]..][ns[1]..][..ns[2]]]
  {
    SumOfThree(ns);
    SumOfTwo(ns[1..]);
    var c := b[ns[0]..];
    Curve25519.CutTwo(c, ns[1..]);
    assert Cut(b, ns) == [b[..ns[0]]] + Cut(c, ns[1..]);
  }

  lemma DsaPartsPlainly(key: seq<byte>)
    requires 28 <= |key|
    requires 28 + Word(key, 2) as int + Word(key, 3) + Word(key, 4) + Word(key, 5) + Word(key, 6) <= |key|
    ensures Complete(Dsa, key)
    ensures var y := 28 + Word(key, 2) as int;
            var p := y + Word(key, 3); var q := p + Word(key, 4); var g := q + Word(key, 5);
            Decode(Dsa, key).parts == [key[28..y], key[y..p], key[p..q], key[q..g], key[g..g + Word(key, 6)]]
  {
    var ns := PartSizes(Dsa, key);
    SumOfFive(ns);
    CutFive(key[28..], ns);
    DsaSlices(key, ns[0], ns[1], ns[2], ns[3], ns[4]);
  }

  lemma CutFive(b: seq<byte>, ns: seq<nat>)
    requires |ns| == 5 && Sum(ns) <= |b|
    ensures ns[0] + ns[1] + ns[2] + ns[3] + ns[4] <= |b|
    ensures var c := b[ns[0]..][ns[1]..];
            Cut(b, ns) == [b[..ns[0]], b[ns[0]..][..ns[1]], c[..ns[2]], c[ns[2]..][..ns[3]], c[ns[2]..][ns[3]..][..ns[4]]]
  {
    SumOfFive(ns);
    SumOfThree(ns[2..]);
    assert ns[1..][1..] == ns[2..] && Sum(ns[1..]) == ns[1] + Sum(ns[2..]);
    var b1 := b[ns[0]..];
    CutThree(b1[ns[1]..], ns[2..]);
    assert Cut(b1, ns[1..]) == [b1[..ns[1]]] + Cut(b1[ns[1]..], ns[2..]);
  }

  lemma DsaSlices(key: seq<byte>, x: nat, y: nat, p: nat, q: nat, g: nat)
    requires 28 + x + y + p + q + g <= |key|
    ensures key[28..][..x] == key[28..28 + x] && key[28..][x..] == key[28 + x..]
    ensures key[28 + x..][..y] == key[28 + x..28 + x + y] && key[28 + x..][y..] == key[28 + x + y..]
    ensures key[28 + x + y..][..p] == key[28 + x + y..28 + x + y + p]
    ensures key[28 + x + y..][p..][..q] == key[28 + x + y + p..28 + x + y + p + q]
    ensures key[28 + x + y..][p..][q..][..g] == key[28 + x + y + p + q..28 + x + y + p + q + g]
  {
  }

  lemma DhPartsPlainly(key: seq<byte>)
    requires 20 <= |key| && 20 + Word(key, 2) as int + Word(key, 3) <= |key|
    ensures Complete(Dh, key)
    ensures var a := 20 + Word(key, 2) as int;
            Decode(Dh, key).parts == [key[20..a], key[a..a + Word(key, 3)]]
  {
    var ns := PartSizes(Dh, key);
    SumOfTwo(ns);
    Curve25519.CutTwo(key[20..], ns);
    assert key[20..][..ns[0]] == key[20..20 + ns[0]] && key[20..][ns[0]..][..ns[1]] == key[20 + ns[0]..20 + ns[0] + ns[1]];
  }

  /** What `CanHandOut` and `Complete` ask of each family. */
  lemma CanHandOutPlainly(f: Family, key: seq<byte>, room: nat, env: Platform)
    requires !f.Curve?
    ensures f.Rsa? || f.Ecc? ==>
              (Complete(f, key) <==> |key| >= 20 && 20 + Word(key, 2) as int + Word(key, 3) + Word(key, 4) <= |key|)
    ensures f.Dsa? ==>
              (Complete(f, key) <==>
                 && |key| >= 28
                 && 28 + Word(key, 2) as int + Word(key, 3) + Word(key, 4) + Word(key, 5) + Word(key, 6) <= |key|)
    ensures f.Dh? ==> (Complete(f, key) <==> |key| >= 20 && 20 + Word(key, 2) as int + Word(key, 3) <= |key|)
    ensures Complete(f, key) ==>
              var n := if f.Dsa? then 28 + Word(key, 3) as int + Word(key, 4) + Word(key, 5) + Word(key, 6)
                       else if f.Dh? then 20 + Word(key, 2) as int else 20 + Word(key, 2) as int + Word(key, 3);
              CanHandOut(f, key, room, env) <==> n <= 8_388_608 && env.mallocOk(n) && Room(n, |key|, room, env)
  {
    if HeaderBytes(f) <= |key| {
      PublicSizeWords(f, key);
      match f
      case Rsa => SumOfThree(PartSizes(f, key));
      case Ecc => SumOfThree(PartSizes(f, key));
      case Dsa => SumOfFive(PartSizes(f, key));
      case Curve =>
      case Dh => SumOfTwo(PartSizes(f, key));
    }
  }

  // ----- 25519 -----

  /** A packed key: a header with one size and the key. */
  lemma PackedPlainly(isPubKey: bool, key: seq<byte>)
    requires |key| < 0x1_0000_0000
    ensures Encode(Curve, Curve25519.Packed(isPubKey, key)) ==
            StoreU32(102) + StoreU32(256) + StoreU32(if isPubKey then |key| else 0) + StoreU32(if isPubKey then 0 else |key|)
            + StoreU32(0) + key
  {
    if isPubKey {
      TwoPartMaterial(Curve, 102, 256, key, [], 0);
      assert key + [] == key;
    } else {
      TwoPartMaterial(Curve, 102, 256, [], key, 0);
      assert [] + key == key;
    }
  }

  lemma Got25519Plainly(isPubKey: bool, b: seq<byte>, mallocOk: bool, ret: Status, keyOut: seq<byte>)
    requires Curve25519.Got25519(isPubKey, b, mallocOk, ret, keyOut)
    ensures |b| < 20 || 20 + Word(b, 2) as int + Word(b, 3) > |b| ==> ret == InvalidArgument
    ensures |b| >= 20 && 20 + Word(b, 2) as int + Word(b, 3) <= |b| ==>
              var off, n := if isPubKey then 20 else 20 + Word(b, 2) as int, if isPubKey then Word(b, 2) else Word(b, 3);
              && ret == (if n == 0 then InvalidKeyInfo else if n <= 8_388_608 && mallocOk then Success else MallocFail)
              && (ret == Success ==> keyOut == b[off..off + n])
  {
    if |b| >= 20 {
      SumOfTwo(PartSizes(Curve, b));
      if 20 + Word(b, 2) as int + Word(b, 3) <= |b| {
        CurveParts(b);
      }
    }
  }
}
