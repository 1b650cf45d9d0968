/** The tables of Sources/SubstrataQuickJS/libbf.c from which the transform's states
    are made: five moduli and, for either direction, a root of order 2^51. */
module NttTables {

  import opened Limbs
  import opened Congruence
  import opened NttModular
  import opened Ntt
  import opened NttInverse

  const NB_MODS := 5

  const NTT_MODS: seq<Limb> := [
    0x28d8000000000001, 0x2a88000000000001, 0x2ed8000000000001, 0x3508000000000001, 0x3aa8000000000001
  ]

  const NTT_PROOT: seq<seq<Limb>> := [
    [0x1b8ea61034a2bea7, 0x21a9762de58206fb, 0x02ca782f0756a8ea, 0x278384537a3e50a1, 0x106e13fee74ce0ab],
    [0x233513af133e13b8, 0x1d13140d1c6f75f1, 0x12cde57f97e3eeda, 0x0d6149e23cbe654f, 0x36cd204f522a1379]
  ]

  /** `c` squared `k` times. */
  function Squared(c: nat, m: nat, k: nat): nat
    requires m > 0
    decreases k
  {
    if k == 0 then c else Squared(c * c % m, m, k - 1)
  }

  lemma {:induction false} SquaredIsPower(c: nat, m: nat, k: nat)
    requires m > 0
    ensures Cong(PowI(c, Pow2(k)), Squared(c, m, k), m)
    decreases k
  {
    if k == 0 {
      assert PowI(c, 1) == PowI(c, 0) * c;
      CongRefl(c, m);
    } else {
      SquaredIsPower(c * c % m, m, k - 1);
      PowerOfSquare(c, m, Pow2(k - 1));
      CongTrans(PowI(c, Pow2(k)), PowI(c * c % m, Pow2(k - 1)), Squared(c, m, k), m);
    }
  }

  lemma PowerOfSquare(c: nat, m: nat, e: nat)
    requires m > 0
    ensures Cong(PowI(c, 2 * e), PowI(c * c % m, e), m)
  {
    PowTimes(c, 2, e);
    assert PowI(c, 2) == c * c by { assert PowI(c, 1) == c; }
    CongMod(c * c, m);
    CongSym(c * c % m, c * c, m);
    CongPow(c * c, c * c % m, e, m);
  }

  lemma MinusOne(c: nat, m: nat)
    requires m > 0 && Squared(c, m, 50) == m - 1
    ensures Root(c, 51, m)
  {
    SquaredIsPower(c, m, 50);
    CongMinusOne(m);
    CongTrans(PowI(c, Pow2(50)), m - 1, -1, m);
  }

  lemma CongMinusOne(m: int)
    requires m > 0
    ensures Cong(m - 1, -1, m)
  {
    IsMultiple(m, 1, m);
  }

  lemma {:induction false} SquaredMore(c: nat, m: nat, k: nat)
    requires m > 0
    ensures Squared(c, m, k + 1) == Squared(c, m, k) * Squared(c, m, k) % m
    decreases k
  {
    if k > 0 { SquaredMore(c * c % m, m, k - 1); }
  }

  /** Five squarings more. */
  lemma Five(c: nat, m: nat, k: nat, x: nat, x1: nat, x2: nat, x3: nat, x4: nat, x5: nat)
    requires m > 0 && Squared(c, m, k) == x
    requires x * x % m == x1 && x1 * x1 % m == x2 && x2 * x2 % m == x3 && x3 * x3 % m == x4 && x4 * x4 % m == x5
    ensures Squared(c, m, k + 5) == x5
  {
    SquaredMore(c, m, k);
    SquaredMore(c, m, k + 1);
    SquaredMore(c, m, k + 2);
    SquaredMore(c, m, k + 3);
    SquaredMore(c, m, k + 4);
  }

  lemma Squares00()
    ensures Squared(0x1b8ea61034a2bea7, 0x28d8000000000001, 50) == 0x28d8000000000000
  {
    var c, m := 0x1b8ea61034a2bea7, 0x28d8000000000001;
    Five(c, m, 0, 0x1b8ea61034a2bea7, 0x11bf2acc9c713d40, 0x117ecd40b8f23ce3,
         0x45ca06b7dd55768, 0x2063daa5f3ab2b8f, 0x1a8676cd7378a4a2);
    Five(c, m, 5, 0x1a8676cd7378a4a2, 0x78addfbaf5d977, 0x1af47adc2454618d,
         0xd47e59d2827ff15, 0x66b730a50ae367d, 0x27c9981f5b3ed347);
    Five(c, m, 10, 0x27c9981f5b3ed347, 0x765065a915fa984, 0xb1428bc341579c0,
         0x1ee40846a81bd08, 0xce74593826adfd0, 0x4604dfcc67800f8);
    Five(c, m, 15, 0x4604dfcc67800f8, 0x250ce92091a519ae, 0x9ad967836a0d03d,
         0xf79df39b7a793dd, 0x1020b13077495562, 0x808861f0e23310c);
    Five(c, m, 20, 0x808861f0e23310c, 0x1881d30f64dde1b2, 0xba18994b0308683,
         0x2bc9718ea5abba3, 0x1ba0869095d3d799, 0x6d7161052ed33c7);
    Five(c, m, 25, 0x6d7161052ed33c7, 0x25ee3bd9c046a388, 0x524cb3892ce2ac,
         0x21e3892da47bfed1, 0x1a6a218533869415, 0x1e40f499a11e5c2f);
    Five(c, m, 30, 0x1e40f499a11e5c2f, 0x1eea26409f9fadd8, 0x29490b7904c808c,
         0x381b45240bee56d, 0xbe930411abbd7ef, 0x1b2cc404c1f00eab);
    Five(c, m, 35, 0x1b2cc404c1f00eab, 0x1b758c419b9072ed, 0x931dd93b729b453,
         0x224524552b855f94, 0x1020098506d09868, 0x19865c9022733918);
    Five(c, m, 40, 0x19865c9022733918, 0x1480b64fff3cb853, 0x16070c056f2e8ff4,
         0x1620b4151aecbd96, 0x3420ab6137bbd61, 0x2719ec745b89fb2d);
    Five(c, m, 45, 0x2719ec745b89fb2d, 0x276d1af9b2668e7b, 0x225c203ea7b1acc0,
         0x240936938e1ab821, 0x22ddbb3c2ad555da, 0x28d8000000000000);
  }

  lemma Squares01()
    ensures Squared(0x21a9762de58206fb, 0x2a88000000000001, 50) == 0x2a88000000000000
  {
    var c, m := 0x21a9762de58206fb, 0x2a88000000000001;
    Five(c, m, 0, 0x21a9762de58206fb, 0xc115151fccaa3b6, 0x1933cae903d6df84,
         0x18ced8f84565af47, 0x10d701bec133727f, 0xf78a7db7410d9f9);
    Five(c, m, 5, 0xf78a7db7410d9f9, 0x16e656d8509df599, 0x188bef80e2704c11,
         0x1c318b73df288f7a, 0x262a41498b083a7, 0x95660e210288c6a);
    Five(c, m, 10, 0x95660e210288c6a, 0xd97b8fe678e8d34, 0xa46e05bdca82f31,
         0x13f1190692921afa, 0x110b6c5ed7a45289, 0x29d6f683253995cf);
    Five(c, m, 15, 0x29d6f683253995cf, 0xfd60a2a200f9c26, 0x2738a11d5cd1c02c,
         0x13391b2515ab46f8, 0x13e82823a00faf4b, 0x2453b59951f862eb);
    Five(c, m, 20, 0x2453b59951f862eb, 0x20208e091c61e871, 0x19109e9184890ca7,
         0x16a696d4620b5233, 0x112c70cff4f937c8, 0x23cbffd3ac83c407);
    Five(c, m, 25, 0x23cbffd3ac83c407, 0x28ed6ee4f7941100, 0x1f7efd54d99ae8f3,
         0xf9234a42f60ed3d, 0x16361632299e1269, 0x8dfc85ec8f66421);
    Five(c, m, 30, 0x8dfc85ec8f66421, 0x162affd6d19e3f6d, 0x1ba70f27ded992c5,
         0xc74896769ae521, 0x78c95dc9fe7d84e, 0x26f15b9d4656e9fe);
    Five(c, m, 35, 0x26f15b9d4656e9fe, 0x211501d49e89e6db, 0x13d5227e55bcd481,
         0x2b4e46443b48209, 0x9b98236f89da2c7, 0x25b15c692eacff82);
    Five(c, m, 40, 0x25b15c692eacff82, 0x12fe079fb471ccf6, 0x1c7f25769cdefca6,
         0x19458bb7142589e2, 0x1044bb49e3593fb, 0xa951fcee81e1917);
    Five(c, m, 45, 0xa951fcee81e1917, 0x10ae703a3f62fd23, 0xbac4480425c3eec,
         0x146bd875e06a2fc4, 0x236e45c7a9102530, 0x2a88000000000000);
  }

  lemma Squares02()
    ensures Squared(0x02ca782f0756a8ea, 0x2ed8000000000001, 50) == 0x2ed8000000000000
  {
    var c, m := 0x02ca782f0756a8ea, 0x2ed8000000000001;
    Five(c, m, 0, 0x2ca782f0756a8ea, 0x7f8af468fa96c01, 0x2893e1a955313b47,
         0x119875c71c305e20, 0xfea39f4f588e372, 0x3616ec68cc63a53);
    Five(c, m, 5, 0x3616ec68cc63a53, 0x1dd280e8ca562289, 0x89b4335356f5ba9,
         0x46e97af40d727e, 0xc73b3b44a90e273, 0x61dfe8ca6992956);
    Five(c, m, 10, 0x61dfe8ca6992956, 0x1d3e5bdaac52234d, 0x1575c284b0956e53,
         0x15be952d05199cd2, 0x1847a2dddac12664, 0x962b718917de5a0);
    Five(c, m, 15, 0x962b718917de5a0, 0x1d0441ae2fbb4b0e, 0x10bc206b633195d3,
         0xd4e22f9033841f, 0x2ba776ed50d8b268, 0x2783d493568cb20b);
    Five(c, m, 20, 0x2783d493568cb20b, 0x292654bbfb073949, 0xb0aea6ed03a0b36,
         0x1f4c53ba8b9be4fe, 0x1186c4d8d6712ea1, 0x2883edd0b24d7431);
    Five(c, m, 25, 0x2883edd0b24d7431, 0x133a9d8b542f301b, 0x1345aa59bc4d4ab9,
         0x15517f78be3ba004, 0x167add39f82a332c, 0x126cd52ee5f02406);
    Five(c, m, 30, 0x126cd52ee5f02406, 0x2f285446e0e92d, 0x2644ab2c4cd4e358,
         0xc2993c49ed39235, 0x9fc2f6fc81e4e61, 0x185e1567702365d4);
    Five(c, m, 35, 0x185e1567702365d4, 0x15c2be1efb484f5a, 0x3173e6d0fed32fb,
         0x2c1a707e395ae3bc, 0x2c985ac26b3d5b61, 0x2956b4b2229d8a8b);
    Five(c, m, 40, 0x2956b4b2229d8a8b, 0x2e5f530afca3420d, 0x3d58c348242857b,
         0x11120bcfa53759b0, 0xf680f483975f033, 0x22f1a7a7bbadcd3b);
    Five(c, m, 45, 0x22f1a7a7bbadcd3b, 0x1970ef6c9cbcd317, 0x14bc81fbda4489b1,
         0x1fbd441fe5e70563, 0x15ebb0edef885436, 0x2ed8000000000000);
  }

  lemma Squares03()
    ensures Squared(0x278384537a3e50a1, 0x3508000000000001, 50) == 0x3508000000000000
  {
    var c, m := 0x278384537a3e50a1, 0x3508000000000001;
    Five(c, m, 0, 0x278384537a3e50a1, 0xd82aa94862db309, 0x17c5b1d8edc947b5,
         0x1f0991d2b810c767, 0x158dad655569cce8, 0x343a21dd03b176d0);
    Five(c, m, 5, 0x343a21dd03b176d0, 0xbd704064191e73e, 0x30d37af324a91bf3,
         0x10c457f05ef48610, 0x336d9c346ad224cd, 0xc5ddfd400bd872);
    Five(c, m, 10, 0xc5ddfd400bd872, 0x1215afd41184f7b4, 0x1dca774d45bb85bb,
         0x2590abd47f6f2b7b, 0x3431c6d1a0e183d2, 0x2ba9d15184e56f91);
    Five(c, m, 15, 0x2ba9d15184e56f91, 0xa077f0e808f55e7, 0x10e4aca6fe02a647,
         0x27a6aad24167a986, 0x2ad8532952214a5d, 0x197defb964696287);
    Five(c, m, 20, 0x197defb964696287, 0xb87fab71e36ea1a, 0x1690822d1f88258f,
         0x1e52d2eacbc69b26, 0xeb3bb6912cb9ea0, 0x77bb40c803c1315);
    Five(c, m, 25, 0x77bb40c803c1315, 0x2013203188e97741, 0x18d07bde7b143666,
         0x334456414536a778, 0x8dc7997ac088ab6, 0x1ac41ca88e35b838);
    Five(c, m, 30, 0x1ac41ca88e35b838, 0x11c342f956abb257, 0x7fc7ef283fe83b4,
         0x24e0c3613c97a76a, 0xf2aad0a6ea1df84, 0x113ef3259d22e0e7);
    Five(c, m, 35, 0x113ef3259d22e0e7, 0x80798a2565138f9, 0x33d53835ce5bc3ad,
         0xf532653e3b244ce, 0xc39b4ae0e71ff75, 0x2484f63c7f3a0060);
    Five(c, m, 40, 0x2484f63c7f3a0060, 0x2d85376e2b036871, 0x2ac7b1f3aa076f6e,
         0xc62d8c29ed3e71c, 0x22b72fb700b997ff, 0x477b150e0cdd0d0);
    Five(c, m, 45, 0x477b150e0cdd0d0, 0x82a9b91aafa024c, 0x1255b0fb439fed7f,
         0x12b6abe6c05ea197, 0x1639a4efab5872e6, 0x3508000000000000);
  }

  lemma Squares04()
    ensures Squared(0x106e13fee74ce0ab, 0x3aa8000000000001, 50) == 0x3aa8000000000000
  {
    var c, m := 0x106e13fee74ce0ab, 0x3aa8000000000001;
    Five(c, m, 0, 0x106e13fee74ce0ab, 0x2ab4e3986f2ee22c, 0x99040fca134ac6b,
         0x117d12ab5ecb3741, 0x7d5f7dc1c1f064c, 0x34744e3bc14f85e3);
    Five(c, m, 5, 0x34744e3bc14f85e3, 0xfd68f624aa11dbb, 0x18686bf84cb33e74,
         0x3530cf4f724d4754, 0x500c9b305228d71, 0x13ea5d9520df4233);
    Five(c, m, 10, 0x13ea5d9520df4233, 0xdf5a5ca37b8046e, 0x396e257658ca538,
         0x6e738d90aaf4949, 0x154a5bd6583090cf, 0x16605fa7ea67abaa);
    Five(c, m, 15, 0x16605fa7ea67abaa, 0x29528a36b3b3ad3e, 0xb445908ec80a80,
         0x38cd2dec35b1a093, 0x37a3654336860829, 0x16d4e6036332f01f);
    Five(c, m, 20, 0x16d4e6036332f01f, 0x21deac0f1b7c42e3, 0x37d19eb869380dee,
         0x35f275215541e0fa, 0x37a7a16e0d67f70b, 0xa6b48a027ed9cb0);
    Five(c, m, 25, 0xa6b48a027ed9cb0, 0x1af75487599c3922, 0x17aee30790b9e2b3,
         0x1de18789eb23e9e0, 0xf54a92367f882db, 0x1e99135084ab55df);
    Five(c, m, 30, 0x1e99135084ab55df, 0x2c8dcbb44789fc3d, 0x1bbbb5ff84595c2b,
         0x210be1ecd56e9b43, 0x31cf0e77383bda15, 0x230389d03a9741a9);
    Five(c, m, 35, 0x230389d03a9741a9, 0x2c01d728b756e204, 0x1b1a6ae0e8214e50,
         0x3a19a8749981d638, 0x38236c52f5edb34c, 0x2d6d4ea45938d2da);
    Five(c, m, 40, 0x2d6d4ea45938d2da, 0x2af11c7b4888771b, 0x2e7b6c570b501118,
         0x339a275f79ea4bbd, 0x376da315b593dc22, 0xb831418ae2216ee);
    Five(c, m, 45, 0xb831418ae2216ee, 0x1acd71a3bfdfd8de, 0x226a78b52d57311,
         0x341060b345a6187d, 0x190871e7f52cc53, 0x3aa8000000000000);
  }

  lemma Squares10()
    ensures Squared(0x233513af133e13b8, 0x28d8000000000001, 50) == 0x28d8000000000000
  {
    var c, m := 0x233513af133e13b8, 0x28d8000000000001;
    Five(c, m, 0, 0x233513af133e13b8, 0xcdd44c283a73c7b, 0x11f6545655f3b96a,
         0x1deba4af40ada1f2, 0xce19a658fc5ef0f, 0x21d9694339e9fc81);
    Five(c, m, 5, 0x21d9694339e9fc81, 0x24428ff1f0b906a8, 0x1a8d9dbddf2e206,
         0x27e8dfb4b95b571e, 0xcbeb3468e09f0be, 0x1e864ac11a9aea3a);
    Five(c, m, 10, 0x1e864ac11a9aea3a, 0x265a85d8c78c3cc6, 0x1f33b42ec1813db3,
         0x14f5ee8e4cfbf3e9, 0x24cea2ea52663528, 0x1c6209a189642583);
    Five(c, m, 15, 0x1c6209a189642583, 0x15b973a8f5f69a77, 0x23f38167f7805ad9,
         0x1611b1151f13928d, 0x23011475dfd8651, 0x1d4371b331e15a74);
    Five(c, m, 20, 0x1d4371b331e15a74, 0x16b785e6dd0c5668, 0xb071770a3451c1f,
         0x96f07781ac66747, 0xa2fce485c8fe882, 0x177d590e5a403586);
    Five(c, m, 25, 0x177d590e5a403586, 0x15d7e696800db36e, 0xeeb1047266146e2,
         0x96bacbfb9db1888, 0x17577f48b2303760, 0x12c08c91a49e3b08);
    Five(c, m, 30, 0x12c08c91a49e3b08, 0x1086b66f0a448efd, 0xaf1539874fc7b52,
         0xae4e130a7c9e736, 0xc1ccdc5e8a14a99, 0x240b055b953f69f7);
    Five(c, m, 35, 0x240b055b953f69f7, 0x7f75e3ee2b3be0f, 0xa2129676f52eb12,
         0x43ecfdba4f4ec86, 0x282f23a4adeb9a58, 0x1d116c6d55173ae);
    Five(c, m, 40, 0x1d116c6d55173ae, 0xd38cd96a599c8ba, 0x108fdb64dd680d0,
         0x1264dbaf42223a7, 0x73148da1280d64, 0x1d088304ae5f31f3);
    Five(c, m, 45, 0x1d088304ae5f31f3, 0x2527ef2dcbfc290, 0x669f12fd54d82f4,
         0x20db9f67bbd90af, 0x5fa44c3d52aaa27, 0x28d8000000000000);
  }

  lemma Squares11()
    ensures Squared(0x1d13140d1c6f75f1, 0x2a88000000000001, 50) == 0x2a88000000000000
  {
    var c, m := 0x1d13140d1c6f75f1, 0x2a88000000000001;
    Five(c, m, 0, 0x1d13140d1c6f75f1, 0x29e616ec35f38814, 0x1dd67cacb2cd02ed,
         0x3c078fc88236bd1, 0x1dd120cfc608c5af, 0x284bbd8f29185f66);
    Five(c, m, 5, 0x284bbd8f29185f66, 0x286671f076b5c6e8, 0x22119da4f4760993,
         0x14878426abac1e65, 0x263dcadd9d99293b, 0x34b2950584ea2aa);
    Five(c, m, 10, 0x34b2950584ea2aa, 0x1da0faf88ceff196, 0xbb061fc2e2787b4,
         0x1ced655b9e76d8b5, 0x229131d6286aa5d, 0x505b02ed70526bd);
    Five(c, m, 15, 0x505b02ed70526bd, 0x1369a1b0be77ca56, 0x27cc1e21987fb76a,
         0x384d18528d5f366, 0x10dc7b61961d876b, 0x2818d0e9cda259d4);
    Five(c, m, 20, 0x2818d0e9cda259d4, 0x109021c76a1f9eee, 0x1b3d67ad093a3bde,
         0x8107719481dcc94, 0x344e2634596d45f, 0x24425182d11f54b1);
    Five(c, m, 25, 0x24425182d11f54b1, 0x1ea8c3977a7f56c3, 0x13f1267550eed0fc,
         0x20ba45a4f629f0e6, 0x6ce38a04e0bbc63, 0x1f3f2bec0ff8258d);
    Five(c, m, 30, 0x1f3f2bec0ff8258d, 0xf0acea32bccaba8, 0x1ff16ea31a3417f8,
         0x1f809c40cd892afe, 0x2722ab451a845423, 0x70c82da685ab622);
    Five(c, m, 35, 0x70c82da685ab622, 0xc077c6f0ea84f84, 0x12f4b0d842b7fa1a,
         0xe225f45bce88b7d, 0xe61dc442721c34c, 0x1900a1ba2803b286);
    Five(c, m, 40, 0x1900a1ba2803b286, 0x226fd90b700da9, 0x1dfe6cd86bd0bb5a,
         0x11145e4dac20691, 0xa806ad69ba291c, 0x22208520cbab2976);
    Five(c, m, 45, 0x22208520cbab2976, 0x32db2f7a21e3739, 0x206945ed40a9061c,
         0xe825c6e240a6635, 0x719ba3856efdad1, 0x2a88000000000000);
  }

  lemma Squares12()
    ensures Squared(0x12cde57f97e3eeda, 0x2ed8000000000001, 50) == 0x2ed8000000000000
  {
    var c, m := 0x12cde57f97e3eeda, 0x2ed8000000000001;
    Five(c, m, 0, 0x12cde57f97e3eeda, 0x137743178538cd4f, 0x2a7b8628c400e6ad,
         0x15e594d58c93ecba, 0x25b0d323461d4add, 0x11fb5046ce2c9917);
    Five(c, m, 5, 0x11fb5046ce2c9917, 0x2a58d93c92873224, 0x1df6d246445a6388,
         0x8f6f866db40757b, 0xaf813ff4262757c, 0x157bd376feb85f70);
    Five(c, m, 10, 0x157bd376feb85f70, 0x116aa26d9cc4bb67, 0x2508940cd954a841,
         0x18f4730a4d037153, 0x2ad33c8d5d27c59, 0xd908a51f44c0b28);
    Five(c, m, 15, 0xd908a51f44c0b28, 0x1cc1aec7f4ebeeb7, 0x2307471950260d3d,
         0x2a4abff3a8c18bd4, 0x1b35ac860a5da5a0, 0x1725c1c037bf1582);
    Five(c, m, 20, 0x1725c1c037bf1582, 0x2d55c5c9fdfe0084, 0x878044aaa835383,
         0x18331a20e4d244b7, 0x177287949e55511, 0x276957e810efd21);
    Five(c, m, 25, 0x276957e810efd21, 0x122c89e7bdcb7658, 0xb32c562c26179aa,
         0x1f5b59591e02cc03, 0x2345267179d6b877, 0x27f6877d087a8bf7);
    Five(c, m, 30, 0x27f6877d087a8bf7, 0x296f48dd34e14a09, 0x13b2b98bd778a4b1,
         0x11d206e63a426d17, 0xe77c48d8148af4c, 0x73fe3596c0ab99b);
    Five(c, m, 35, 0x73fe3596c0ab99b, 0x1901c4f845cedb75, 0x5e60450c81e2f96,
         0x253377fe1399df00, 0x545a315598d144f, 0x15c36fcf350f82cb);
    Five(c, m, 40, 0x15c36fcf350f82cb, 0x1bbe8397d0be6d52, 0x2506450c56287024,
         0x2df1a72a1bb14b7b, 0x63c640aea0a1eff, 0x258ba17ec2a3ee35);
    Five(c, m, 45, 0x258ba17ec2a3ee35, 0x1c204286795b923b, 0x6580118e5607fdb,
         0x2518a539b051059, 0x18ec4f121077abcb, 0x2ed8000000000000);
  }

  lemma Squares13()
    ensures Squared(0x0d6149e23cbe654f, 0x3508000000000001, 50) == 0x3508000000000000
  {
    var c, m := 0x0d6149e23cbe654f, 0x3508000000000001;
    Five(c, m, 0, 0xd6149e23cbe654f, 0x3379832c9789f2b5, 0xeaffa34e280a3da,
         0x25aa5fbb374289c4, 0xc61e2349ca420fe, 0x1ede2c610c8bb294);
    Five(c, m, 5, 0x1ede2c610c8bb294, 0xc25fc3f063c1802, 0x2832310582d57f11,
         0x329d5981b9ada5d4, 0x1a24131217d53cbe, 0x92600aa6a00c630);
    Five(c, m, 10, 0x92600aa6a00c630, 0x2cbfd6be71a4c045, 0x1046d5c8b9e5de6d,
         0x13780c9e61250d7b, 0x33b7843ffdfbf50f, 0x2860b03f387b1e16);
    Five(c, m, 15, 0x2860b03f387b1e16, 0x201edb9d8e0994a2, 0xa5f999edc86ce24,
         0x33adff8993768cb7, 0x1329b9cee157caf2, 0xc071fabe9ae77b3);
    Five(c, m, 20, 0xc071fabe9ae77b3, 0x1e7ff27df1e852eb, 0x1713f15d855b8b80,
         0x24d79cb64f5a6d68, 0x162ada58a5292c12, 0x286ee0efee880e3);
    Five(c, m, 25, 0x286ee0efee880e3, 0x29cb8bd51c9d65f5, 0x33c3fa26bdefed83,
         0x166cd45cb97206d4, 0xee6ef06255da4e, 0x1960229c168aeab);
    Five(c, m, 30, 0x1960229c168aeab, 0x4997c894a8d5375, 0x6be8d042119ea88,
         0x25a5419e3025bde6, 0xa2622946e8ba7ee, 0x2f687a7abe549c60);
    Five(c, m, 35, 0x2f687a7abe549c60, 0x2630a721550e256c, 0x31a25e7d05c56c2d,
         0x2a2d8cd586e5ec93, 0x32dc3aa72f1c9ad2, 0x17e574354ae3c497);
    Five(c, m, 40, 0x17e574354ae3c497, 0x137223fe8742b3c7, 0xeff28b3244894ce,
         0x1b63495ec429b467, 0x12c82729e03896df, 0xfc78000d333538);
    Five(c, m, 45, 0xfc78000d333538, 0x1e760bb4dceeebd5, 0x22c84492b5b2e859,
         0x16c69ea1678a17f3, 0x1ece5b1054a78d1b, 0x3508000000000000);
  }

  lemma Squares14()
    ensures Squared(0x36cd204f522a1379, 0x3aa8000000000001, 50) == 0x3aa8000000000000
  {
    var c, m := 0x36cd204f522a1379, 0x3aa8000000000001;
    Five(c, m, 0, 0x36cd204f522a1379, 0x393423985be622ea, 0x25b960eb1c5469e8,
         0x427f8f6720e202a, 0x3870629fad06fc05, 0x199d18fbc3bc667c);
    Five(c, m, 5, 0x199d18fbc3bc667c, 0x1097573f6be12a2, 0x3485f91a093071b1,
         0x1687c0aa853f9c43, 0x2f9dc1d3f517ea85, 0x82a756c6d304659);
    Five(c, m, 10, 0x82a756c6d304659, 0x1483d3f0700674a0, 0xdc3402b6d735f12,
         0xb37b729f7a3388a, 0x167894cf475a40a5, 0x316ab6e4cfd9d011);
    Five(c, m, 15, 0x316ab6e4cfd9d011, 0xa66c1465016fcdd, 0x239b4b9ef011063,
         0x4604659575d78ca, 0x8b18a91e4b746e5, 0xb8c5332b00921ee);
    Five(c, m, 20, 0xb8c5332b00921ee, 0xec01aa60b48f23b, 0xf07e476c92e4edf,
         0x2017a5477e485c14, 0x2512bab5d159ae1, 0xd87c46848ee2e91);
    Five(c, m, 25, 0xd87c46848ee2e91, 0x3561b7538d5490a4, 0x2f41ab079f8a0e59,
         0x2c73f4f09893213f, 0xa3f1d8b8b9ddbd2, 0x6f8de063a5ead81);
    Five(c, m, 30, 0x6f8de063a5ead81, 0x28debf75bd457918, 0x24affdc4389726f9,
         0x1ce1f3895625fb8a, 0x218fef0db6567ca1, 0xdbe2f3fd7e97b5c);
    Five(c, m, 35, 0xdbe2f3fd7e97b5c, 0x322035c2345c6723, 0xc8779dcaf06fc2,
         0x7b51502c6ec152d, 0x2b927e88bef51cb4, 0x2ff26db46b70029c);
    Five(c, m, 40, 0x2ff26db46b70029c, 0x15a1ef1e219186aa, 0x1456c49b5939c17,
         0x2bf36f836fc7f87a, 0xbbe755dca5ba518, 0x3348b318a585ce4a);
    Five(c, m, 45, 0x3348b318a585ce4a, 0x3a51508132e913ca, 0x3984f065b023a549,
         0x2b2acec011555dab, 0x391778e180ad33ae, 0x3aa8000000000000);
  }

  /** The tables hold moduli in the required range and roots of the required order. */
  lemma Tabulated(inverse: nat, j: nat)
    requires inverse < 2 && j < NB_MODS
    ensures var m, c := NTT_MODS[j], NTT_PROOT[inverse][j]; Modulus(m) && c < m && Root(c, NTT_PROOT_2EXP, m)
  {
    if inverse == 0 {
      match j
      case 0 => Squares00();
      case 1 => Squares01();
      case 2 => Squares02();
      case 3 => Squares03();
      case 4 => Squares04();
    } else {
      match j
      case 0 => Squares10();
      case 1 => Squares11();
      case 2 => Squares12();
      case 3 => Squares13();
      case 4 => Squares14();
    }
    MinusOne(NTT_PROOT[inverse][j], NTT_MODS[j]);
  }

  /** The roots of the two directions are inverses of each other. */
  lemma InverseRoots(j: nat)
    requires j < NB_MODS
    ensures Cong(NTT_PROOT[0][j] as int * NTT_PROOT[1][j], 1, NTT_MODS[j])
  {
    var p: int, m: int := NTT_PROOT[0][j] as int * NTT_PROOT[1][j], NTT_MODS[j];
    assert p % m == 1;
    CongMod(p, m);
    CongSym(1, p, m);
  }

  /** ntt_static_init, for one modulus and one direction. */
  method NttStaticInit(inverse: nat, j: nat) returns (s: BFNTTState)
    requires inverse < 2 && j < NB_MODS
    ensures fresh(s) && s.Valid() && s.m == NTT_MODS[j]
    ensures s.prootPow[NTT_PROOT_2EXP] == NTT_PROOT[inverse][j]
  {
    Tabulated(inverse, j);
    s := new BFNTTState(NTT_MODS[j], NTT_PROOT[inverse][j]);
  }

  lemma {:induction false} PairedRoots(f: BFNTTState, b: BFNTTState, k: nat)
    requires f.Rooted() && b.Rooted() && f.m == b.m && 1 <= k <= NTT_PROOT_2EXP
    requires Cong(f.prootPow[NTT_PROOT_2EXP] as int * b.prootPow[NTT_PROOT_2EXP], 1, f.m)
    ensures Cong(f.prootPow[k] as int * b.prootPow[k], 1, f.m)
    decreases NTT_PROOT_2EXP - k
  {
    if k < NTT_PROOT_2EXP {
      PairedRoots(f, b, k + 1);
      assert f.RootedAt(k + 1) && b.RootedAt(k + 1);
      SquaresCancel(f.prootPow[k + 1], b.prootPow[k + 1], f.prootPow[k], b.prootPow[k], f.m);
    }
  }

  lemma SquaresCancel(x: int, y: int, v: int, w: int, m: int)
    requires Cong(x * y, 1, m) && Cong(v, x * x, m) && Cong(w, y * y, m)
    ensures Cong(v * w, 1, m)
  {
    CongMul(v, x * x, w, y * y, m);
    CongMul(x * y, 1, x * y, 1, m);
    assert (x * x) * (y * y) == (x * y) * (x * y);
    CongTrans(v * w, (x * y) * (x * y), 1, m);
  }

  /** The transform in one direction and then in the other, with the tabulated moduli
      and roots: the input times its length. */
  method ThereAndBack(j: nat, k: nat, x: seq<Limb>) returns (z: seq<Limb>)
    requires j < NB_MODS && 1 <= k <= NTT_TRIG_K_MAX && |x| == Pow2(k)
    requires forall t :: 0 <= t < |x| ==> x[t] < 2 * NTT_MODS[j]
    ensures |z| == |x|
    ensures forall t :: 0 <= t < |x| ==> z[t] < 2 * NTT_MODS[j] && Cong(z[t], |x| * x[t], NTT_MODS[j])
  {
    var f := NttStaticInit(0, j);
    var b := NttStaticInit(1, j);
    InverseRoots(j);
    PairedRoots(f, b, k);
    var y := Transform(f, k, x);
    assert f.RootedAt(k);
    forall t | 0 <= t < |y| ensures y[t] < 2 * b.m { assert Final(y, x, f.prootPow[k], f.m, t); }
    z := Transform(b, k, y);
    Inverted(x, y, z, f.prootPow[k], b.prootPow[k], k, f.m);
  }

  /** One transform, between fresh buffers. */
  method Transform(s: BFNTTState, k: nat, x: seq<Limb>) returns (y: seq<Limb>)
    requires s.Valid() && 1 <= k <= NTT_TRIG_K_MAX && |x| == Pow2(k)
    requires forall t :: 0 <= t < |x| ==> x[t] < 2 * s.m
    modifies s
    ensures s.Valid() && |y| == |x| && forall t :: 0 <= t < |y| ==> Final(y, x, s.prootPow[k], s.m, t)
  {
    var inBuf := new Limb[|x|](i requires 0 <= i < |x| => x[i]);
    var outBuf, tmpBuf := new Limb[|x|](_ => 0), new Limb[|x|](_ => 0);
    assert inBuf[..] == x;
    var ok := s.Fft(outBuf, inBuf, tmpBuf, k);
    y := outBuf[..];
  }

  lemma Inverted(x: seq<Limb>, y: seq<Limb>, z: seq<Limb>, w: int, v: int, k: nat, m: int)
    requires Root(w, k, m) && Cong(w * v, 1, m) && |x| == |y| == |z| == Pow2(k)
    requires forall t :: 0 <= t < |y| ==> Final(y, x, w, m, t)
    requires forall t :: 0 <= t < |z| ==> Final(z, y, v, m, t)
    ensures forall t :: 0 <= t < |x| ==> z[t] < 2 * m && Cong(z[t], |x| * x[t], m)
  {
    forall t | 0 <= t < |x| ensures z[t] < 2 * m && Cong(z[t], |x| * x[t], m) {
      assert Final(z, y, v, m, t);
      InverseTransform(x, y, w, v, k, m, t);
      CongTrans(z[t], Dft(y, v, t), |x| * x[t], m);
    }
  }
}
