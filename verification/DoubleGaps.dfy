/** No double is so close below a power of ten that the approximation of format_float takes
    it for that power. */
module DoubleGaps {
  import opened MachineInts
  import opened Powers
  import opened RealPowers
  import opened DoubleDigits
  import opened CachedPowers
  import DragonMeaning

  /** What the rounded product of two normalised significands is at least: 2^62. */
  const CLOSE: nat := 0x4000_0000_0000_0000

  /** v is at least p, or closer below it than one part in 2^62. */
  ghost predicate Reaches(v: real, p: real)
  {
    p * (CLOSE as real - 1.0) < v * CLOSE as real
  }

  // ---------- The powers of ten next to a cached one ----------

  /** Eight multiples of the spacings at 10^c to 10^(c + 7). */
  datatype Eight = Eight(q0: nat, q1: nat, q2: nat, q3: nat, q4: nat, q5: nat, q6: nat, q7: nat)

  /** Powers of ten that are settled without the table. */
  predicate WithoutTable(t: int)
  {
    0 <= t <= 26 || t < -323 || t > 309
  }

  /** Between lo and hi there is no multiple between below and next, and lo is at least one
      part in 2^62 above below. */
  predicate Apart(lo: int, hi: int, below: int, next: int)
  {
    (lo - below) * 0x4000_0000_0000_0000 >= hi && hi <= next
  }

  predicate EightApart(lo: int, hi: int, b: Eight, c: int)
  {
    && (WithoutTable(c) || Apart(lo, hi, 0x40000000000 * b.q0, 0x40000000000 * (b.q0 + 1)))
    && (WithoutTable(c + 1) || Apart(10 * lo, 10 * hi, 0x400000000000 * b.q1, 0x400000000000 * (b.q1 + 1)))
    && (WithoutTable(c + 2) || Apart(100 * lo, 100 * hi, 0x2000000000000 * b.q2, 0x2000000000000 * (b.q2 + 1)))
    && (WithoutTable(c + 3) || Apart(1000 * lo, 1000 * hi, 0x10000000000000 * b.q3, 0x10000000000000 * (b.q3 + 1)))
    && (WithoutTable(c + 4) || Apart(10000 * lo, 10000 * hi, 0x100000000000000 * b.q4, 0x100000000000000 * (b.q4 + 1)))
    && (WithoutTable(c + 5) || Apart(100000 * lo, 100000 * hi, 0x800000000000000 * b.q5, 0x800000000000000 * (b.q5 + 1)))
    && (WithoutTable(c + 6) || Apart(1000000 * lo, 1000000 * hi, 0x4000000000000000 * b.q6, 0x4000000000000000 * (b.q6 + 1)))
    && (WithoutTable(c + 7) || Apart(10000000 * lo, 10000000 * hi, 0x40000000000000000 * b.q7, 0x40000000000000000 * (b.q7 + 1)))
  }

  /** The power of ten of the i-th entry and the next seven are clear of multiples of their
      spacings. */
  ghost predicate Clear(i: nat)
  {
    exists b :: ClearWith(i, b)
  }

  predicate ClearWith(i: nat, b: Eight)
  {
    EightApart(Entry(i).Lower(), Entry(i).Upper(), b, 8 * i - 348)
  }

  ghost predicate ClearUpTo(i: nat, n: nat)
    decreases n - i
  {
    i >= n || (Clear(i) && ClearUpTo(i + 1, n))
  }

  lemma {:induction false} ClearMeans(i: nat, n: nat, k: nat)
    requires ClearUpTo(i, n) && i <= k < n
    ensures Clear(k)
    decreases n - i
  {
    hide Clear;
    if i < k {
      ClearMeans(i + 1, n, k);
    }
  }

  lemma BelowWith(i: nat, b: Eight)
    requires EightApart(Entry(i).Lower(), Entry(i).Upper(), b, 8 * i - 348)
    ensures Clear(i)
  {
    assert ClearWith(i, b);
  }

  lemma Clear3To5(i: nat)
    requires i == 3
    ensures ClearUpTo(i, i + 3)
  {
    hide Clear;
    BelowWith(3, Eight(0x33d0a25297738d, 0x206265739ea838, 0x287afed0865246, 0x3299be84a7e6d8, 0x1fa01712e8f047, 0x27881cd7a32c58, 0x316a240d8bf76f, 0x1ee25688777aa5));
    BelowWith(4, Eight(0x269aec2a95594e, 0x1820d39a9d57d1, 0x1e29088144adc5, 0x25b34aa195d936, 0x17900ea4fda7c2, 0x1d74124e3d11b2, 0x24d116e1cc561f, 0x1702ae4d1fb5d3));
    BelowWith(5, Eight(0x3986b3c0cf4691, 0x23f43058818c1a, 0x2cf13c6ea1ef21, 0x382d8b8a4a6aea, 0x231c77366e82d2, 0x2be395040a2386, 0x36dc7a450cac68, 0x2249cc6b27ebc1));
    assert ClearUpTo(i + 2, i + 3);
  }

  lemma Clear6To8(i: nat)
    requires i == 6
    ensures ClearUpTo(i, i + 3)
  {
    hide Clear;
    BelowWith(6, Eight(0x2adc3f85f1e6b1, 0x1ac9a7b3b7302f, 0x217c11a0a4fc3a, 0x29db1608ce3b49, 0x1a28edc580e50d, 0x20b32936e11e51, 0x28dff3849965e5, 0x198bf832dfdfaf));
    BelowWith(7, Eight(0x3fddec7f2faf37, 0x27eab3cf7dcd82, 0x31e560c35d40e3, 0x3e5eb8f434911b, 0x26fb3398a0dab1, 0x30ba007ec9115d, 0x3ce8809e7b55b5, 0x261150630d1591));
    BelowWith(8, Eight(0x2f95a47bd05af5, 0x1dbd86cd6238d9, 0x252ce880bac70f, 0x2e7822a0e978d3, 0x1d0b15a491eb84, 0x244ddb0db66665, 0x2d6151d123fffe, 0x1c5cd322b67fff));
    assert ClearUpTo(i + 2, i + 3);
  }

  lemma Clear9To11(i: nat)
    requires i == 9
    ensures ClearUpTo(i, i + 3)
  {
    hide Clear;
    BelowWith(9, Eight(0x237407eb641fff, 0x162884f31e93ff, 0x1bb2a62fe638ff, 0x229f4fbbdfc73f, 0x15a391d56bdc87, 0x1b0c764ac6d3a9, 0x21cf93dd788893, 0x1521bc6a6b555c));
    BelowWith(10, Eight(0x34d4570a0c5566, 0x2104b66647b560, 0x2945e3ffd9a2b8, 0x33975cffd00b66, 0x203e9a1fe2071f, 0x284e40a7da88e7, 0x3261d0d1d12b21, 0x1f7d228322baf5));
    BelowWith(11, Eight(0x275c6b23eb69b2, 0x1899c2f673220f, 0x1ec033b40fea93, 0x267040a113e538, 0x18062864ac6f43, 0x1e07b27dd78b13, 0x25899f1d4d6dd8, 0x177603725064a7));
    assert ClearUpTo(i + 2, i + 3);
  }

  lemma Clear12To14(i: nat)
    requires i == 12
    ensures ClearUpTo(i, i + 3)
  {
    hide Clear;
    BelowWith(12, Eight(0x3aa7089dc8fba2, 0x24a865629d9d45, 0x2dd27ebb450497, 0x39471e6a1645bd, 0x23cc73024deb96, 0x2cbf8fc2e1667b, 0x37ef73b399c01a, 0x22f5a850401810));
    BelowWith(13, Eight(0x2bb31264501e14, 0x1b4feb7eb212cd, 0x2223e65e5e9780, 0x2aacdff5f63d60, 0x1aac0bf9b9e65c, 0x21570ef8285ff3, 0x29acd2b63277f0, 0x1a0c03b1df8af6));
    BelowWith(14, Eight(0x208f049e576db3, 0x145962e2f6a490, 0x196fbb9bb44db4, 0x1fcbaa82a16121, 0x13df4a91a4dcb4, 0x18d71d360e13e2, 0x1f0ce4839198da, 0x13680ed23aff88));
    assert ClearUpTo(i + 2, i + 3);
  }

  lemma Clear15To17(i: nat)
    requires i == 15
    ensures ClearUpTo(i, i + 3)
  {
    hide Clear;
    BelowWith(15, Eight(0x3084250d937ed5, 0x1e5297287c2f45, 0x25e73cf29b3b16, 0x2f610c2f4209dc, 0x1d9ca79d894629, 0x2503d184eb97b4, 0x2e44c5e6267da1, 0x1ceafbafd80e84));
    BelowWith(16, Eight(0x2425ba9bce1226, 0x169794a160cb57, 0x1c3d79c9b8fe2d, 0x234cd83c273db9, 0x16100725988693, 0x1b9408eefea838, 0x22790b2abe5246, 0x158ba6fab6f36c));
    BelowWith(17, Eight(0x35dd2172c9608e, 0x21aa34e7bddc59, 0x2a14c221ad536f, 0x3499f2aa18a84b, 0x20e037aa4f692f, 0x29184594e3437a, 0x335e56fa1c1459, 0x201af65c518cb7));
    assert ClearUpTo(i + 2, i + 3);
  }

  lemma Clear18To20(i: nat)
    requires i == 18
    ensures ClearUpTo(i, i + 3)
  {
    hide Clear;
    BelowWith(18, Eight(0x2821b3f365efe5, 0x191510781fb5ef, 0x1f5a549627a36b, 0x2730e9bbb18c46, 0x187e92154ef7ac, 0x1e9e369aa2b597, 0x2645c4414b62fc, 0x17eb9aa8cf1dde));
    BelowWith(19, Eight(0x3bcd02a605caab, 0x256021a7c39eab, 0x2eb82a11b48655, 0x3a66349621a7eb, 0x247fe0ddd508f3, 0x2d9fd9154a4b2f, 0x3907cf5a9cddfb, 0x23a4e198a20abd));
    BelowWith(20, Eight(0x2c8e19feca8d6c, 0x1bd8d03f3e9863, 0x22cf044f0e3e7c, 0x2b82c562d1ce1c, 0x1b31bb5dc320d1, 0x21fe2a3533e905, 0x2a7db4c280e347, 0x1a8e90f9908e0c));
    assert ClearUpTo(i + 2, i + 3);
  }

  lemma Clear21To23(i: nat)
    requires i == 21
    ensures ClearUpTo(i, i + 3)
  {
    hide Clear;
    BelowWith(21, Eight(0x21323537f4b18f, 0x14bf6142f8eef9, 0x19ef3993b72ab8, 0x206b07f8a4f566, 0x1442e4fb671960, 0x19539e3a40dfb8, 0x1fa885c8d117a6, 0x13c9539d82aec7));
    BelowWith(22, Eight(0x31775109c6b4f3, 0x1eea92a61c3118, 0x26a5374fa33d5e, 0x304e85238c0cb5, 0x1e3113363787f1, 0x25bd5803c569ed, 0x2f2cae04b6c469, 0x1d7becc2f23ac1));
    BelowWith(23, Eight(0x24dae7f3aec972, 0x1708d0f84d3de7, 0x1ccb0536608d61, 0x23fdc683f8b0b9, 0x167e9c127b6e74, 0x1c1e43171a4a11, 0x2325d3dce0dc95, 0x15f7a46a0c89dd));
    assert ClearUpTo(i + 2, i + 3);
  }

  lemma Clear24To26(i: nat)
    requires i == 24
    ensures ClearUpTo(i, i + 3)
  {
    hide Clear;
    BelowWith(24, Eight(0x36eb1b091f58a9, 0x2252f0e5b39769, 0x2ae7ad1f207d44, 0x35a19866e89c95, 0x2184ff405161dd, 0x29e63f1065ba54, 0x345fced47f28e9, 0x20bbe144cf7992));
    BelowWith(25, Eight(0x28ead9960357f6, 0x1992c7fdc216fa, 0x1ff779fd329cb8, 0x27f5587c7f43e6, 0x18f9574dcf8a70, 0x1f37ad21436d0c, 0x2705986994484f, 0x18637f41fcad31));
    BelowWith(26, Eight(0x3cf8be24f7b0fc, 0x261b76d71ace9d, 0x2fa2548ce18245, 0x3b8ae9b019e2d6, 0x2536d20e102dc5, 0x2e848691943937, 0x3a25a835f94785, 0x24578921bbccb3));
    assert ClearUpTo(i + 2, i + 3);
  }

  lemma Clear27To29(i: nat)
    requires i == 27
    ensures ClearUpTo(i, i + 3)
  {
    hide Clear;
    BelowWith(27, Eight(0x2d6d6b6a2abfe0, 0x1c6463225ab7ec, 0x237d7beaf165e7, 0x2c5cdae5adbf60, 0x1bba08cf8c979c, 0x22a88b036fbd83, 0x2b52adc44bace4, 0x1b13ac9aaf4c0e));
    BelowWith(28, Eight(0x21d897c15b1f12, 0x15275ed8d8f36b, 0x1a71368f0f3046, 0x210d8432d2fc58, 0x14a8729fc3ddb7, 0x19d28f47b4d524, 0x20473319a20a6e, 0x142c7ff0054684));
    BelowWith(29, Eight(0x326f3fd80d304c, 0x1f8587e7083e2f, 0x2766e9e0ca4dbb, 0x3140a458fce12a, 0x1ec866b79e0cba, 0x267a8065858fe9, 0x3019207ee6f3e3, 0x1e0fb44f50586e));
    assert ClearUpTo(i + 2, i + 3);
  }

  lemma Clear30To32(i: nat)
    requires i == 30
    ensures ClearUpTo(i, i + 3)
  {
    hide Clear;
    BelowWith(30, Eight(0x2593a163246e89, 0x177c44ddf6c515, 0x1d5b561574765b, 0x24b22b9ad193f2, 0x16ef5b40c2fc77, 0x1cab3210f3bb95, 0x23d5fe9530aa7a, 0x1665bf1d3e6a8c));
    BelowWith(31, Eight(0x37fe5dc91c0a5f, 0x22fefa9db1867b, 0x2bbeb9451de81a, 0x36ae6796656221, 0x222d00bdff5d54, 0x2ab840ed7f34aa, 0x35665128df01d4, 0x215ff2b98b6124));
    BelowWith(32, Eight(0x29b7ef67ee396e, 0x1a12f5a0f4e3e4, 0x2097b309321cde, 0x28bd9fcb7ea415, 0x197683df2f268d, 0x1fd424d6faf030, 0x27c92e0cb9ac3d, 0x18ddbcc7f40ba6));
    assert ClearUpTo(i + 2, i + 3);
  }

  lemma Clear33To35(i: nat)
    requires i == 33
    ensures ClearUpTo(i, i + 3)
  {
    hide Clear;
    BelowWith(33, Eight(0x3e2a57f3e21d1f, 0x26da76f86d5233, 0x309114b688a6c0, 0x3cb559e42ad070, 0x25f1582e9ac246, 0x2f6dae3a4172d8, 0x3b4919c8d1cf8e, 0x250db01d8321b8));
    BelowWith(34, Eight(0x2e511c24e3ea26, 0x1cf2b1970e7258, 0x242f5dfcd20eee, 0x2d3b357c0692aa, 0x1c45016d841baa, 0x235641c8e52294, 0x2c2bd23b1e6b3a, 0x1b9b6364f30304));
    BelowWith(35, Eight(0x22823c3e2fc3c5, 0x159165a6ddda5b, 0x1af5bf109550f2, 0x21b32ed4baa52e, 0x150ffd44f4a73d, 0x1a53fc9631d10c, 0x20e8fbbbbe454f, 0x14919d5556eb51));
    assert ClearUpTo(i + 2, i + 3);
  }

  lemma Clear36To38(i: nat)
    requires i == 36
    ensures ClearUpTo(i, i + 3)
  {
    hide Clear;
    BelowWith(36, Eight(0x336c0955594c4c, 0x202385d557cfaf, 0x282c674aadc39b, 0x3237811d593482, 0x1f62b0b257c0d1, 0x273b5cdeedb106, 0x310a3416a91d47, 0x1ea6608e29b24c));
    BelowWith(37, Eight(0x264ff8b1b41edf, 0x17f1fb6f10934b, 0x1dee7a4ad4b81e, 0x256a18dd89e626, 0x17624f8a762fd8, 0x1d3ae36d13bbce, 0x24899c4858aac1, 0x16d601ad376ab9));
    BelowWith(38, Eight(0x391704310a8ace, 0x23ae629ea696c1, 0x2c99fb46503c71, 0x37c07a17e44b8d, 0x22d84c4eeeaf38, 0x2b8e5f62aa5b06, 0x3671f73b54f1c8, 0x22073a8515171d));
    assert ClearUpTo(i + 2, i + 3);
  }

  lemma Clear39To41(i: nat)
    requires i == 39
    ensures ClearUpTo(i, i + 3)
  {
    hide Clear;
    BelowWith(39, Eight(0x2a8909265a5ce4, 0x1a95a5b7f87a0e, 0x213b0f25f69892, 0x2989d2ef743eb7, 0x19f623d5a8a732, 0x2073accb12d0ff, 0x289097fdd7853f, 0x195a5efea6b347));
    BelowWith(40, Eight(0x3f61ed7ca0c032, 0x279d346de4781f, 0x318481895d9627, 0x3de5a1ebb4fbb1, 0x26af8533511d4e, 0x305b66802564a2, 0x3c7240202ebdcb, 0x25c768141d369e));
    BelowWith(41, Eight(0x2f394219248446, 0x1d83c94fb6d2ac, 0x24e4bba3a48757, 0x2e1dea8c8da92d, 0x1cd2b297d889bc, 0x24075f3dceac2b, 0x2d09370d425736, 0x1c25c268497681));
    assert ClearUpTo(i + 2, i + 3);
  }

  lemma Clear42To44(i: nat)
    requires i == 42
    ensures ClearUpTo(i, i + 3)
  {
    hide Clear;
    BelowWith(42, Eight(0x232f33025bd422, 0x15fd7fe1796495, 0x1b7cdfd9d7bdba, 0x225c17d04dad29, 0x15798ee2308c39, 0x1ad7f29abcaf48, 0x218def416bdb1a, 0x14f8b588e368f0));
    BelowWith(43, Eight(0x346dc5d6388659, 0x20c49ba5e353f7, 0x28f5c28f5c28f5, 0x33333333333333, 0x20000000000000, 0x28000000000000, 0x32000000000000, 0x1f400000000000));
    BelowWith(44, Eight(0x270fffffffffff, 0x1869ffffffffff, 0x1e847fffffffff, 0x26259fffffffff, 0x17d783ffffffff, 0x1dcd64ffffffff, 0x2540be3fffffff, 0x174876e7ffffff));
    assert ClearUpTo(i + 2, i + 3);
  }

  lemma Clear45To47(i: nat)
    requires i == 45
    ensures ClearUpTo(i, i + 3)
  {
    hide Clear;
    BelowWith(45, Eight(0x3a352943ffffff, 0x246139ca7fffff, 0x2d79883d1fffff, 0x38d7ea4c67ffff, 0x2386f26fc0ffff, 0x2c68af0bb13fff, 0x3782dace9d8fff, 0x22b1c8c12279ff));
    BelowWith(46, Eight(0x2b5e3af16b187f, 0x1b1ae4d6e2ef4f, 0x21e19e0c9bab23, 0x2a5a058fc295ec, 0x1a784379d99db4, 0x21165458500521, 0x295be96e640669, 0x19d971e4fe8401));
    BelowWith(47, Eight(0x204fce5e3e2502, 0x1431e0fae6d721, 0x193e5939a08ce9, 0x1f8def8808b024, 0x13b8b5b5056e16, 0x18a6e32246c99c, 0x1ed09bead87c03, 0x13426172c74d82));
    assert ClearUpTo(i + 2, i + 3);
  }

  lemma Clear48To50(i: nat)
    requires i == 48
    ensures ClearUpTo(i, i + 3)
  {
    hide Clear;
    BelowWith(48, Eight(0x3025f39ef241c5, 0x1e17b84357691b, 0x259da6542d4362, 0x2f050fe938943a, 0x1d6329f1c35ca4, 0x24bbf46e3433cd, 0x2deaf189c140c1, 0x1cb2d6f618c878));
    BelowWith(49, Eight(0x23df8cb39efa97, 0x166bb7f0435c9e, 0x1c06a5ec5433c6, 0x23084f676940b7, 0x15e531a0a1c872, 0x1b5e7e08ca3a8f, 0x22361d8afcc933, 0x1561d276ddfdc0));
    BelowWith(50, Eight(0x35748e292afa60, 0x2168d8d9badc7c, 0x29c30f1029939b, 0x3433d2d433f881, 0x20a063c4a07b51, 0x28c87cb5c89a25, 0x32fa9be33ac0ae, 0x1fdca16e04b86d));
    assert ClearUpTo(i + 2, i + 3);
  }

  lemma Clear51To53(i: nat)
    requires i == 51
    ensures ClearUpTo(i, i + 3)
  {
    hide Clear;
    BelowWith(51, Eight(0x27d3c9c985e688, 0x18e45e1df3b015, 0x1f1d75a5709c1a, 0x26e4d30eccc321, 0x184f03e93ff9f4, 0x1e62c4e38ff872, 0x25fb761c73f68e, 0x17bd29d1c87a19));
    BelowWith(52, Eight(0x3b58e88c75313e, 0x25179157c93ec7, 0x2e5d75adbb8e79, 0x39f4d3192a7217, 0x243903efba874e, 0x2d4744eba92922, 0x3899162693736a, 0x235fadd81c2822));
    BelowWith(53, Eight(0x2c37994e23322b, 0x1ba2bfd0d5ff5b, 0x228b6fc50b7f31, 0x2b2e4bb64e5efe, 0x1afcef51f0fb5e, 0x21bc2b266d3a36, 0x2a2b35f00888c4, 0x1a5b01b605557a));
    assert ClearUpTo(i + 2, i + 3);
  }

  lemma Clear54To56(i: nat)
    requires i == 54
    ensures ClearUpTo(i, i + 3)
  {
    hide Clear;
    BelowWith(54, Eight(0x20f1c22386aad9, 0x14971956342ac7, 0x19bcdfabc13579, 0x202c1796b182d8, 0x141b8ebe2ef1c7, 0x1922726dbaae39, 0x1f6b0f092959c7, 0x13a2e965b9d81c));
    BelowWith(55, Eight(0x3117477e509c47, 0x1eae8caef261ac, 0x265a2fdaaefa17, 0x2ff0bbd15ab89d, 0x1df67562d8b362, 0x257412bb8ee03b, 0x2ed1176a72984a, 0x1d42aea2879f2e));
    BelowWith(56, Eight(0x24935a4b2986f9, 0x16dc186ef9f45c, 0x1c931e8ab87173, 0x23b7e62d668dcf, 0x1652efdc6018a1, 0x1be7abd3781eca, 0x22e196c856267d, 0x15ccfe3d35d80e));
    assert ClearUpTo(i + 2, i + 3);
  }

  lemma Clear57To59(i: nat)
    requires i == 57
    ensures ClearUpTo(i, i + 3)
  {
    hide Clear;
    BelowWith(57, Eight(0x36807b99069c23, 0x22104d3fa42196, 0x2a94608f8d29fb, 0x353978b370747a, 0x2143eb702648cc, 0x2994e64c2fdaff, 0x33fa1fdf3bd1bf, 0x207c53eb856317));
    BelowWith(58, Eight(0x289b68e666bbdd, 0x1961219000356a, 0x1fb969f40042c5, 0x27a7c471005376, 0x18c8dac6a0342a, 0x1efb1178484134, 0x26b9d5d65a5181, 0x183425a5f872f1));
    BelowWith(59, Eight(0x3c825e1eed1f5a, 0x25d17ad3543398, 0x2f45d98829407e, 0x3b174fea33909e, 0x24ee91f2603a63, 0x2e2a366ef848fc, 0x39b4c40ab65b3b, 0x2410fa86b1f904));
    assert ClearUpTo(i + 2, i + 3);
  }

  lemma Clear60To62(i: nat)
    requires i == 60
    ensures ClearUpTo(i, i + 3)
  {
    hide Clear;
    BelowWith(60, Eight(0x2d1539285e7746, 0x1c2d43b93b0a8b, 0x233894a789cd2e, 0x2c06b9d16c407a, 0x1b843422e3a84c, 0x2265412b9c925f, 0x2afe917683b6f7, 0x1adf1aea12525a));
    BelowWith(61, Eight(0x2196e1a496e6f1, 0x14fe4d06de5056, 0x1a3de04895e46c, 0x20cd585abb5d87, 0x14805738b51a74, 0x19a06d06e26112, 0x200888489af956, 0x1405552d60dbd6));
    BelowWith(62, Eight(0x320d54f1722597, 0x1f485516e7577e, 0x271a6a5ca12d5e, 0x30e104f3c978b5, 0x1e8ca3185deb71, 0x262fcbde75664e, 0x2fbbbed612bfe1, 0x1dd55745cbb7ec));
    assert ClearUpTo(i + 2, i + 3);
  }

  lemma Clear63To65(i: nat)
    requires i == 63
    ensures ClearUpTo(i, i + 3)
  {
    hide Clear;
    BelowWith(63, Eight(0x254aad173ea5e8, 0x174eac2e8727b1, 0x1d22573a28f19d, 0x246aed08b32e04, 0x16c2d4256ffcc2, 0x1c73892ecbfbf3, 0x23906b7a7efaf0, 0x163a432c8f5cd6));
    BelowWith(64, Eight(0x3791a7ef666817, 0x22bb08f5a0010e, 0x2b69cb33080152, 0x36443dffca01a7, 0x21eaa6bfde4108, 0x2a65506fd5d14a, 0x34fea48bcb459d, 0x211f26d75f0b82));
    BelowWith(65, Eight(0x2966f08d36ce63, 0x19e056584240fd, 0x20586bee52d13d, 0x286e86e9e7858c, 0x1945145230b377, 0x1f965966bce055, 0x277befc06c186b, 0x18ad75d8438f43));
    assert ClearUpTo(i + 2, i + 3);
  }

  lemma Clear66To68(i: nat)
    requires i == 66
    ensures ClearUpTo(i, i + 3)
  {
    hide Clear;
    BelowWith(66, Eight(0x3db1a69ca8e627, 0x268f0821e98fd8, 0x3032ca2a63f3cf, 0x3c3f7cb4fcf0c2, 0x25a7adf11e1679, 0x2f11996d659c18, 0x3ad5ffc8bf031e, 0x24c5bfdd7761f2));
    BelowWith(67, Eight(0x2df72fd4d53a6f, 0x1cba7de5054485, 0x23e91d5e4695a7, 0x2ce364b5d83b11, 0x1c0e1ef1a724ea, 0x2311a6ae10ee25, 0x2bd610599529ae, 0x1b65ca37fd3a0d));
    BelowWith(68, Eight(0x223f3cc5fc8890, 0x156785fbbdd55a, 0x1ac1677aad4ab0, 0x2171c159589d5d, 0x14e718d7d7625a, 0x1a20df0dcd3af0, 0x20a916d14089ac, 0x1469ae42c8560c));
    assert ClearUpTo(i + 2, i + 3);
  }

  lemma Clear69To71(i: nat)
    requires i == 69
    ensures ClearUpTo(i, i + 3)
  {
    hide Clear;
    BelowWith(69, Eight(0x330833a6f4d71e, 0x1fe52048590672, 0x27de685a6f480f, 0x31d602710b1a13, 0x1f25c186a6f04c, 0x26ef31e850ac5f, 0x30aafe6264d776, 0x1e6adefd7f06aa));
    BelowWith(70, Eight(0x260596bcdec854, 0x17c37e360b3d35, 0x1db45dc38e0c82, 0x25217534718fa2, 0x1734e940c6f9c5, 0x1d022390f8b837, 0x2442ac7536e645, 0x16a9abc9424feb));
    BelowWith(71, Eight(0x38a82d7725c7cc, 0x23691c6a779cdf, 0x2c436385158417, 0x37543c665ae51d, 0x2294a5bff8cf32, 0x2b39cf2ff702fe, 0x360842fbf4c3be, 0x21c529dd78fa57));
    assert ClearUpTo(i + 2, i + 3);
  }

  lemma Clear72To74(i: nat)
    requires i == 72
    ensures ClearUpTo(i, i + 3)
  {
    hide Clear;
    BelowWith(72, Eight(0x2a367454d738ec, 0x1a6208b5068394, 0x20fa8ae2482479, 0x29392d9ada2d97, 0x19c3bc80c85c7e, 0x2034aba0fa739e, 0x2841d689391085, 0x19292615c3aa53));
    BelowWith(73, Eight(0x3ee6df366929d1, 0x27504b8201ba22, 0x31245e628228ab, 0x3d6d75fb22b2d6, 0x266469bcf5afc5, 0x2ffd842c331bb7, 0x3bfce5373fe2a5, 0x257e0f4287eda7));
    BelowWith(74, Eight(0x2edd931329e911, 0x1d4a7bebfa31aa, 0x249d1ae6f8be15, 0x2dc461a0b6ed9a, 0x1c9abd04725480, 0x23c16c458ee9a0, 0x2cb1c756f2a408, 0x1bef1c9657a685));
    assert ClearUpTo(i + 2, i + 3);
  }

  lemma Clear75To77(i: nat)
    requires i == 75
    ensures ClearUpTo(i, i + 3)
  {
    hide Clear;
    BelowWith(75, Eight(0x22eae3bbed9027, 0x15d2ce55747a18, 0x1b4781ead1989e, 0x2219626585fec6, 0x154fdd7f73bf3b, 0x1aa3d4df50af0a, 0x214cca1724dacd, 0x14cffe4e7708c0));
    BelowWith(76, Eight(0x3407fbc42995e1, 0x2084fd5a99fdac, 0x28a63cb1407d17, 0x32cfcbdd909c5d, 0x1fc1df6a7a61ba, 0x27b2574518fa29, 0x319eed165f38b3, 0x1f03542dfb8370));
    BelowWith(77, Eight(0x26c429397a644c, 0x183a99c3ec7eaf, 0x1e494034e79e5b, 0x25db90422185f2, 0x17a93a2954f3b7, 0x1d9388b3aa30a5, 0x24f86ae094bcce, 0x171b42cc5cf601));
    assert ClearUpTo(i + 2, i + 3);
  }

  lemma Clear78To80(i: nat)
    requires i == 78
    ensures ClearUpTo(i, i + 3)
  {
    hide Clear;
    BelowWith(78, Eight(0x39c426fee86703, 0x241a985f514061, 0x2d213e7725907a, 0x38698e14eef499, 0x2341f8cd1558df, 0x2c1277005aaf17, 0x371714c0715add, 0x226e6cf846d8ca));
    BelowWith(79, Eight(0x2b0a0836588efd, 0x1ae64521f7595e, 0x219fd66a752fb5, 0x2a07cc05127ba3, 0x1a44df832b8d45, 0x20d61763f67097, 0x290b9d3cf40cbd, 0x19a742461887f6));
    BelowWith(80, Eight(0x201112d79ea9f3, 0x140aabc6c32a38, 0x190d56b873f4c6, 0x1f50ac6690f1f8, 0x13926bc01a973b, 0x187706b0213d09, 0x1e94c85c298c4c, 0x131cfd3999f7af));
    assert ClearUpTo(i + 2, i + 3);
  }

  lemma Clear81To82(i: nat)
    requires i == 81
    ensures ClearUpTo(i, i + 2)
  {
    hide Clear;
    BelowWith(81, Eight(0x2fc8791000eb37, 0x1ddd4baa009302, 0x25549e9480b7c3, 0x2ea9c639a0e5b3, 0x1d2a1be4048f90, 0x2474a2dd05b374, 0x2d91cb94472051, 0x1c7b1f3cac7433));
    BelowWith(82, Eight(0x2399e70bd7913f, 0x1640306766bac7, 0x1bd03c81406979, 0x22c44ba19083d8, 0x15baaf44fa5267, 0x1b295b1638e701, 0x21f3b1dbc720c1, 0x15384f295c7478));
    assert ClearUpTo(i + 1, i + 2);
  }

  lemma ClearTo41(k: nat)
    requires 3 <= k < 42
    ensures Clear(k)
  {
    hide *;
    if k < 6 {
      Clear3To5(3);
      ClearMeans(3, 6, k);
    } else if k < 9 {
      Clear6To8(6);
      ClearMeans(6, 9, k);
    } else if k < 12 {
      Clear9To11(9);
      ClearMeans(9, 12, k);
    } else if k < 15 {
      Clear12To14(12);
      ClearMeans(12, 15, k);
    } else if k < 18 {
      Clear15To17(15);
      ClearMeans(15, 18, k);
    } else if k < 21 {
      Clear18To20(18);
      ClearMeans(18, 21, k);
    } else if k < 24 {
      Clear21To23(21);
      ClearMeans(21, 24, k);
    } else if k < 27 {
      Clear24To26(24);
      ClearMeans(24, 27, k);
    } else if k < 30 {
      Clear27To29(27);
      ClearMeans(27, 30, k);
    } else if k < 33 {
      Clear30To32(30);
      ClearMeans(30, 33, k);
    } else if k < 36 {
      Clear33To35(33);
      ClearMeans(33, 36, k);
    } else if k < 39 {
      Clear36To38(36);
      ClearMeans(36, 39, k);
    } else {
      Clear39To41(39);
      ClearMeans(39, 42, k);
    }
  }

  lemma ClearTo82(k: nat)
    requires 42 <= k < 83
    ensures Clear(k)
  {
    hide *;
    if k < 45 {
      Clear42To44(42);
      ClearMeans(42, 45, k);
    } else if k < 48 {
      Clear45To47(45);
      ClearMeans(45, 48, k);
    } else if k < 51 {
      Clear48To50(48);
      ClearMeans(48, 51, k);
    } else if k < 54 {
      Clear51To53(51);
      ClearMeans(51, 54, k);
    } else if k < 57 {
      Clear54To56(54);
      ClearMeans(54, 57, k);
    } else if k < 60 {
      Clear57To59(57);
      ClearMeans(57, 60, k);
    } else if k < 63 {
      Clear60To62(60);
      ClearMeans(60, 63, k);
    } else if k < 66 {
      Clear63To65(63);
      ClearMeans(63, 66, k);
    } else if k < 69 {
      Clear66To68(66);
      ClearMeans(66, 69, k);
    } else if k < 72 {
      Clear69To71(69);
      ClearMeans(69, 72, k);
    } else if k < 75 {
      Clear72To74(72);
      ClearMeans(72, 75, k);
    } else if k < 78 {
      Clear75To77(75);
      ClearMeans(75, 78, k);
    } else if k < 81 {
      Clear78To80(78);
      ClearMeans(78, 81, k);
    } else {
      Clear81To82(81);
      ClearMeans(81, 83, k);
    }
  }

  // ---------- Any power of ten of the table ----------

  /** The j-th of the eight powers and spacings. */
  function Power(j: nat): nat
  {
    match j
    case 0 => 1
    case 1 => 10
    case 2 => 100
    case 3 => 1000
    case 4 => 10000
    case 5 => 100000
    case 6 => 1000000
    case _ => 10000000
  }

  function SpacingBits(j: nat): nat
  {
    match j
    case 0 => 42
    case 1 => 46
    case 2 => 49
    case 3 => 52
    case 4 => 56
    case 5 => 59
    case 6 => 62
    case _ => 66
  }

  function Spacing(j: nat): nat
  {
    match j
    case 0 => 0x40000000000
    case 1 => 0x400000000000
    case 2 => 0x2000000000000
    case 3 => 0x10000000000000
    case 4 => 0x100000000000000
    case 5 => 0x800000000000000
    case 6 => 0x4000000000000000
    case _ => 0x40000000000000000
  }

  function Multiple(b: Eight, j: nat): nat
  {
    match j
    case 0 => b.q0
    case 1 => b.q1
    case 2 => b.q2
    case 3 => b.q3
    case 4 => b.q4
    case 5 => b.q5
    case 6 => b.q6
    case _ => b.q7
  }

  lemma PowerMeans(j: nat)
    requires j < 8
    ensures Power(j) == Pow(10, j)
  {
    assert Pow(10, 2) == 100 && Pow(10, 3) == 1000;
    PowAdd(10, 3, 1);
    PowAdd(10, 3, 2);
    PowAdd(10, 3, 3);
    PowAdd(10, 3, 4);
    assert Pow(10, 4) == 10000;
  }

  lemma SpacingMeans(j: nat)
    requires j < 8
    ensures Spacing(j) == Pow(2, SpacingBits(j))
  {
    assert Pow(2, 3) == 8 && Pow(2, 4) == 16 && Pow(2, 7) == 128 && Pow(2, 10) == 1024;
    PowAdd(2, 4, 4);
    PowAdd(2, 7, 7);
    PowAdd(2, 14, 3);
    PowAdd(2, 10, 10);
    PowAdd(2, 20, 4);
    TwoTo32();
    PowAdd(2, 32, 10);
    PowAdd(2, 42, 4);
    PowAdd(2, 42, 7);
    PowAdd(2, 42, 10);
    PowAdd(2, 42, 14);
    PowAdd(2, 42, 17);
    PowAdd(2, 42, 20);
    PowAdd(2, 42, 24);
  }

  lemma EightApartAt(lo: int, hi: int, b: Eight, c: int, j: nat)
    requires EightApart(lo, hi, b, c) && j < 8 && !WithoutTable(c + j)
    ensures var d, q := Spacing(j), Multiple(b, j);
            Apart(Power(j) * lo, Power(j) * hi, d * q, d * (q + 1))
  {
    hide WithoutTable;
  }

  /** The spacing is at most that of the doubles just below the power. */
  lemma SpacingSmall(r: Row, j: nat)
    requires RowTight(r) && j < 8
    ensures IMPLICIT_BIT * Spacing(j) * CLOSE <= (Power(j) * r.Lower()) * (CLOSE - 1)
  {
    assert r.Lower() >= 0x7FFF_FFFF_8000_0000_0000_0000;
  }

  lemma EnclosesTimes(c: int, lo: int, hi: int, s: int, j: nat)
    requires Encloses(c, lo, hi, s) && j < 8
    ensures Encloses(c + j, Power(j) * lo, Power(j) * hi, s)
  {
    PowerMeans(j);
    hide *;
    EnclosesBy(c, lo, hi, s, j, Power(j), Power(j) * lo, Power(j) * hi);
  }

  lemma EnclosesBy(c: int, lo: int, hi: int, s: int, j: nat, p: nat, below: int, above: int)
    requires Encloses(c, lo, hi, s) && p == Pow(10, j) && below == p * lo && above == p * hi
    ensures Encloses(c + j, below, above, s)
  {
    AsReal(p, lo);
    AsReal(p, hi);
    hide RPow, Pow;
    RPowTimes(10, c, j);
    BothTimes(lo as real, hi as real, RPow(2, s), RPow(10, c), p as real, below as real, above as real);
  }

  lemma BothTimes(lo: real, hi: real, r: real, x: real, p: real, below: real, above: real)
    requires lo * r <= x <= hi * r && p >= 0.0 && below == p * lo && above == p * hi
    ensures below * r <= x * p <= above * r
  {
    TimesNonNegative(lo * r, x, p);
    TimesNonNegative(x, hi * r, p);
    assert below * r == (lo * r) * p && above * r == (hi * r) * p;
  }

  lemma TableGap(f: nat, e: int, t: int)
    requires IsDouble(f, e) && DragonMeaning.Exact(f, e) < RPow(10, t) && !WithoutTable(t)
    ensures !Reaches(DragonMeaning.Exact(f, e), RPow(10, t))
  {
    hide DragonMeaning.Exact, RPow, Reaches, Encloses, Entry, EightApart, Row.Lower, Row.Upper;
    var i, j := (t + 348) / 8, (t + 348) % 8;
    assert 8 * i - 348 + j == t && 3 <= i < 83;
    if i < 42 {
      ClearTo41(i);
    } else {
      ClearTo82(i);
    }
    var b :| ClearWith(i, b);
    var r := Entry(i);
    EntryEnclosed(i);
    EveryRow(i);
    EightApartAt(r.Lower(), r.Upper(), b, 8 * i - 348, j);
    EnclosesTimes(8 * i - 348, r.Lower(), r.Upper(), r.ey - 32, j);
    SpacingMeans(j);
    SpacingSmall(r, j);
    hide *;
    GapFrom(f, e, t, Power(j) * r.Lower(), Power(j) * r.Upper(), r.ey - 32, Spacing(j), SpacingBits(j), Multiple(b, j));
  }

  /** A power of ten between lo and hi units of 2^s, clear of multiples of the spacing d, is
      not reached by a smaller double. */
  lemma GapFrom(f: nat, e: int, t: int, lo: int, hi: int, s: int, d: nat, bits: nat, q: nat)
    requires Encloses(t, lo, hi, s) && Apart(lo, hi, d * q, d * (q + 1)) && d == Pow(2, bits)
    requires IMPLICIT_BIT * d * CLOSE <= lo * (CLOSE - 1)
    requires f < 2 * IMPLICIT_BIT && DragonMeaning.Exact(f, e) < RPow(10, t)
    ensures !Reaches(DragonMeaning.Exact(f, e), RPow(10, t))
  {
    if e >= s + bits {
      OnGrid(f, e, t, lo, hi, s, d, bits, q);
    } else {
      FarBelow(f, e, t, lo, hi, s, d, bits);
    }
  }

  /** A double with the spacing's exponent or a larger one is a multiple of the spacing. */
  lemma OnGrid(f: nat, e: int, t: int, lo: int, hi: int, s: int, d: nat, bits: nat, q: nat)
    requires Encloses(t, lo, hi, s) && Apart(lo, hi, d * q, d * (q + 1)) && d == Pow(2, bits)
    requires e >= s + bits && DragonMeaning.Exact(f, e) < RPow(10, t)
    ensures !Reaches(DragonMeaning.Exact(f, e), RPow(10, t))
  {
    hide DragonMeaning.Exact, RPow, Pow, Reaches;
    var g := e - s - bits;
    var m := f * Pow(2, g);
    PowPositive(2, bits);
    GridMultiple(f, e, s, d, bits, g, m, d * m);
    RPowStep(2, s);
    GridReached(DragonMeaning.Exact(f, e), RPow(10, t), RPow(2, s), lo, hi, d, m, q, d * m, d * q, d * (q + 1));
  }

  lemma GridReached(v: real, x: real, r: real, lo: int, hi: int, d: nat, m: nat, q: nat, n: int, below: int, next: int)
    requires n == d * m && below == d * q && next == d * (q + 1) && d > 0 && r > 0.0
    requires v == n as real * r < x && lo as real * r <= x <= hi as real * r && Apart(lo, hi, below, next)
    ensures !Reaches(v, x)
  {
    UnitsBelow(n, hi, r, x);
    LastMultiple(d, m, q);
    UnitsUpTo(n, below, r);
    hide Reaches;
    NotReached(v, x, r, lo, hi, below);
  }

  lemma UnitsBelow(n: int, hi: int, r: real, x: real)
    requires r > 0.0 && n as real * r < x <= hi as real * r
    ensures n < hi
  {
    CancelReal(hi as real, n as real, r);
  }

  lemma UnitsUpTo(n: int, k: int, r: real)
    requires r > 0.0 && n <= k
    ensures n as real * r <= k as real * r
  {
    CancelReal(n as real, k as real, r);
  }

  lemma GridMultiple(f: nat, e: int, s: int, d: nat, bits: nat, g: nat, m: nat, n: nat)
    requires d == Pow(2, bits) && e == s + bits + g && m == f * Pow(2, g) && n == d * m
    ensures DragonMeaning.Exact(f, e) == n as real * RPow(2, s)
  {
    hide Pow, RPow;
    PowAdd(2, g, bits);
    RPowTimes(2, s, g + bits);
    assert s + (g + bits) == e;
    GridProduct(f, Pow(2, g), d, Pow(2, g + bits), m, n);
    ProductInReals(f, Pow(2, g + bits), n, RPow(2, s), RPow(2, e));
  }

  lemma GridProduct(f: nat, p: nat, d: nat, big: nat, m: nat, n: nat)
    requires m == f * p && n == d * m && big == p * d
    ensures n == f * big
  {
    MulAssoc(f, p, d);
  }

  lemma ProductInReals(f: nat, big: nat, n: nat, r: real, p: real)
    requires n == f * big && r * big as real == p
    ensures f as real * p == n as real * r
  {
    AsReal(f, big);
    Regroup3(f as real, r, big as real);
  }

  lemma LastMultiple(d: nat, m: nat, q: nat)
    requires d > 0 && d * m < d * (q + 1)
    ensures d * m <= d * q
  {
    if m > q {
      MulMonotone(q + 1, m, d);
    } else {
      MulMonotone(m, q, d);
    }
  }

  /** v is at most n units, x between lo and hi, and a share of hi lies between n and lo. */
  lemma NotReached(v: real, x: real, r: real, lo: int, hi: int, n: int)
    requires r > 0.0 && v <= n as real * r && lo as real * r <= x <= hi as real * r && (lo - n) * CLOSE >= hi
    ensures !Reaches(v, x)
  {
    var gap := (lo - n) as real;
    assert ((lo - n) * CLOSE) as real == gap * CLOSE as real;
    CancelReal(hi as real, gap * CLOSE as real, r);
    assert (gap * CLOSE as real) * r == (gap * r) * CLOSE as real;
    assert gap * r == lo as real * r - n as real * r;
    assert gap * r <= x - v;
    TimesNonNegative(gap * r, x - v, CLOSE as real);
  }

  /** A double with a smaller exponent is below the spacing's first binade. */
  lemma FarBelow(f: nat, e: int, t: int, lo: int, hi: int, s: int, d: nat, bits: nat)
    requires Encloses(t, lo, hi, s) && d == Pow(2, bits) && e < s + bits
    requires IMPLICIT_BIT * d * CLOSE <= lo * (CLOSE - 1) && f < 2 * IMPLICIT_BIT
    ensures !Reaches(DragonMeaning.Exact(f, e), RPow(10, t))
  {
    hide RPow, Pow, Reaches;
    RPowTimes(2, s, bits);
    RPowMonotone(2, e + 1, s + bits);
    RPowStep(2, e);
    RPowStep(2, s);
    BelowSpacing(f, RPow(2, e), d, RPow(2, s), IMPLICIT_BIT * d);
    BelowShare(DragonMeaning.Exact(f, e), RPow(10, t), RPow(2, s), lo, IMPLICIT_BIT * d, (IMPLICIT_BIT * d) * CLOSE,
               lo * (CLOSE - 1));
  }

  lemma BelowSpacing(f: nat, p: real, d: nat, r: real, n: nat)
    requires f < 2 * IMPLICIT_BIT && p > 0.0 && 2.0 * p <= r * d as real && n == IMPLICIT_BIT * d
    ensures f as real * p <= n as real * r
  {
    AsReal(IMPLICIT_BIT, d);
    HalfSpacing(f as real, p, d as real, r);
  }

  lemma HalfSpacing(f: real, p: real, d: real, r: real)
    requires 0.0 <= f <= 2.0 * IMPLICIT_BIT as real && p > 0.0 && 2.0 * p <= r * d
    ensures f * p <= (IMPLICIT_BIT as real * d) * r
  {
    TimesNonNegative(f, 2.0 * IMPLICIT_BIT as real, p);
    assert (IMPLICIT_BIT as real * d) * r == IMPLICIT_BIT as real * (r * d);
  }

  lemma BelowShare(v: real, x: real, r: real, lo: int, n: int, left: int, right: int)
    requires left == n * CLOSE && right == lo * (CLOSE - 1) && left <= right
    requires r > 0.0 && v <= n as real * r && lo as real * r <= x
    ensures !Reaches(v, x)
  {
    AsReal(n, CLOSE);
    AsReal(lo, CLOSE - 1);
    CancelReal(left as real, right as real, r);
    SwapFactors(n as real, CLOSE as real, r);
    SwapFactors(lo as real, CLOSE as real - 1.0, r);
    TimesNonNegative(v, n as real * r, CLOSE as real);
    TimesNonNegative(lo as real * r, x, CLOSE as real - 1.0);
  }

  // ---------- The other powers of ten ----------

  /** Next to 10^t for t up to 26 both are multiples of a power of two no smaller than the
      double's last place, or than 2^t. */
  lemma SmallPowerGap(f: nat, e: int, t: nat)
    requires IsDouble(f, e) && DragonMeaning.Exact(f, e) < RPow(10, t) && t <= 26
    ensures !Reaches(DragonMeaning.Exact(f, e), RPow(10, t))
  {
    var m := if e <= t then e else t;
    FiveTo26(t);
    assert Pow(2, 0) == 1;
    hide Pow, RPow, DragonMeaning.Exact, Reaches;
    GapInUnits(f, e, t, m, f * Pow(2, e - m), Pow(5, t) * Pow(2, t - m));
  }

  lemma GapInUnits(f: nat, e: int, t: nat, m: int, n: nat, b: nat)
    requires m <= e && m <= t && n == f * Pow(2, e - m) && b == Pow(5, t) * Pow(2, t - m)
    requires n < 2 * IMPLICIT_BIT || b < CLOSE
    requires DragonMeaning.Exact(f, e) < RPow(10, t)
    ensures !Reaches(DragonMeaning.Exact(f, e), RPow(10, t))
  {
    hide Pow, RPow, Reaches;
    RPowStep(2, m);
    RPowTimes(2, m, e - m);
    assert m + (e - m) == e;
    ProductInReals(f, Pow(2, e - m), n, RPow(2, m), RPow(2, e));
    TenInUnits(t, m, b);
    UnitsBelow(n, b, RPow(2, m), RPow(10, t));
    SmallShare(n, b);
    NotReached(DragonMeaning.Exact(f, e), RPow(10, t), RPow(2, m), b, b, n);
  }

  lemma SmallShare(n: nat, b: nat)
    requires n < b && (n < 2 * IMPLICIT_BIT || b < CLOSE)
    ensures (b - n) * CLOSE >= b
  {
    MulMonotone(1, b - n, CLOSE);
    MulMonotone(2, CLOSE, b - n);
  }

  lemma TenInUnits(t: nat, m: int, b: nat)
    requires m <= t && b == Pow(5, t) * Pow(2, t - m)
    ensures b as real * RPow(2, m) == RPow(10, t)
  {
    hide Pow, RPow;
    PowProduct(2, 5, t);
    assert 2 * 5 == 10;
    RPowNat(10, t);
    RPowNat(2, t);
    RPowTimes(2, m, t - m);
    assert m + (t - m) == t;
    AsReal(Pow(2, t), Pow(5, t));
    AsReal(Pow(5, t), Pow(2, t - m));
    Regroup3(RPow(2, m), Pow(5, t) as real, Pow(2, t - m) as real);
  }

  lemma FiveTo26(t: nat)
    requires t <= 26
    ensures Pow(5, t) < CLOSE
  {
    PowMonotone(5, t, 26);
    assert Pow(5, 6) == 15625 && Pow(5, 1) == 5;
    PowAdd(5, 6, 6);
    PowAdd(5, 12, 12);
    PowAdd(5, 24, 1);
    PowAdd(5, 25, 1);
  }

  /** 2^1024 < 10^309 and 2^1074 < 10^324, from 2^93 < 10^28. */
  lemma DoubleEnds()
    ensures RPow(2, 1024) < RPow(10, 309) && RPow(10, -324) < RPow(2, -1074)
  {
    hide Pow, RPow;
    SmallPowers();
    PowBase(Pow(2, 93), Pow(10, 28), 11);
    PowPow(2, 93, 11);
    PowPow(10, 28, 11);
    PowAdd(2, 1023, 1);
    PowAdd(10, 308, 1);
    PowAdd(2, 1023, 51);
    PowAdd(10, 308, 16);
    PowPositive(10, 308);
    PowPositive(2, 1023);
    MulMonotone(Pow(2, 1023), Pow(10, 308), Pow(2, 51));
    MulStrict(Pow(2, 51), Pow(10, 16), Pow(10, 308));
    RPowNat(2, 1024);
    RPowNat(10, 309);
    RPowNegative(10, 324);
    RPowNegative(2, 1074);
    Reciprocals(Pow(2, 1074) as real, Pow(10, 324) as real);
  }

  lemma SmallPowers()
    ensures Pow(2, 93) <= Pow(10, 28) && Pow(2, 51) < Pow(10, 16) && Pow(2, 1) == 2 && Pow(10, 1) == 10
  {
    assert Pow(2, 1) == 2 && Pow(10, 1) == 10;
    hide Pow;
    Twos93();
    Tens28();
  }

  lemma Twos93()
    ensures Pow(2, 51) == 0x8_0000_0000_0000 && Pow(2, 93) == 0x2000_0000_0000_0000_0000_0000
  {
    assert Pow(2, 3) == 8 && Pow(2, 8) == 256 && Pow(2, 1) == 2;
    hide Pow;
    PowAdd(2, 8, 8);
    assert Pow(2, 16) == 0x1_0000;
    PowAdd(2, 16, 16);
    assert Pow(2, 32) == 0x1_0000_0000;
    PowAdd(2, 32, 16);
    PowAdd(2, 48, 3);
    assert Pow(2, 51) == 0x8_0000_0000_0000;
    PowAdd(2, 32, 8);
    PowAdd(2, 40, 1);
    PowAdd(2, 41, 1);
    assert Pow(2, 42) == 0x400_0000_0000;
    PowAdd(2, 51, 42);
  }

  lemma Tens28()
    ensures Pow(10, 16) == 10000000000000000 && Pow(10, 28) == 10000000000000000000000000000
  {
    assert Pow(10, 4) == 10000;
    hide Pow;
    PowAdd(10, 4, 4);
    PowAdd(10, 8, 8);
    PowAdd(10, 16, 8);
    PowAdd(10, 24, 4);
  }

  lemma Reciprocals(x: real, y: real)
    requires 0.0 < x < y
    ensures 1.0 / y < 1.0 / x
  {
    assert (1.0 / x) * x == 1.0 && (1.0 / y) * y == 1.0;
    CancelReal(1.0 / y, 1.0 / x, x);
    CancelReal(x, y, 1.0 / y);
  }

  lemma DoubleRange(f: nat, e: int)
    requires IsDouble(f, e)
    ensures RPow(10, -324) < DragonMeaning.Exact(f, e) < RPow(10, 309)
  {
    hide Pow, RPow;
    DoubleEnds();
    RPowMonotone(2, e + 53, 1024);
    RPowMonotone(2, -1074, e);
    RPowStep(2, e);
    RPowTimes(2, e, 53);
    TwoTo53();
    Between(f as real, RPow(2, e), (2 * IMPLICIT_BIT) as real);
  }

  lemma TwoTo53()
    ensures Pow(2, 53) == 2 * IMPLICIT_BIT
  {
    TwoTo32();
    assert Pow(2, 10) == 1024 && Pow(2, 1) == 2;
    PowAdd(2, 32, 10);
    PowAdd(2, 42, 10);
    PowAdd(2, 52, 1);
  }

  lemma Between(f: real, p: real, limit: real)
    requires 1.0 <= f < limit && p > 0.0
    ensures p <= f * p < p * limit
  {
    CancelReal(f, limit, p);
    CancelReal(1.0, f, p);
  }

  /** No double reaches a power of ten that it is below. */
  lemma NoDoubleReaches(f: nat, e: int, t: int)
    requires IsDouble(f, e) && DragonMeaning.Exact(f, e) < RPow(10, t)
    ensures !Reaches(DragonMeaning.Exact(f, e), RPow(10, t))
  {
    hide DragonMeaning.Exact, RPow, Pow, Reaches;
    if !WithoutTable(t) {
      TableGap(f, e, t);
    } else if 0 <= t <= 26 {
      SmallPowerGap(f, e, t);
    } else {
      DoubleRange(f, e);
      RPowStep(10, -324);
      if t > 309 {
        RPowMonotone(10, 310, t);
        RPowStep(10, 309);
        FarAbove(DragonMeaning.Exact(f, e), RPow(10, 309), RPow(10, t));
      } else {
        RPowMonotone(10, t, -324);
      }
    }
  }

  lemma FarAbove(v: real, p: real, q: real)
    requires 0.0 < v < p && q >= 10.0 * p
    ensures !Reaches(v, q)
  {
    CancelReal(q, 10.0 * p, CLOSE as real - 1.0);
    CancelReal(v, p, CLOSE as real);
  }
}
