/** cFloatDeco::GetCachedPower: the table of powers of ten, and the choice from it. */
module CachedPowers {
  import opened Arith
  import opened FloatDeco
  import opened RealPowers

  /** An entry of the table, and the power it stands for with 64 bits more. */
  datatype Entry = Entry(power: Deco, fine: nat)

  /** k_CachedPowers: entry i stands for 10^(8i - 348). */
  function Cached(i: nat): Entry
    requires i < 87
  {
    if i < 8 then Row0(i)
    else if i < 16 then Row1(i)
    else if i < 24 then Row2(i)
    else if i < 32 then Row3(i)
    else if i < 40 then Row4(i)
    else if i < 48 then Row5(i)
    else if i < 56 then Row6(i)
    else if i < 64 then Row7(i)
    else if i < 72 then Row8(i)
    else if i < 80 then Row9(i)
    else Row10(i)
  }

  function Row0(i: nat): Entry
    requires 0 <= i < 8
  {
    match i
    case 0 => Entry(Deco(0xfa8fd5a0081c0288, -1220), 0xfa8fd5a0081c02881732c869cd60e453)
    case 1 => Entry(Deco(0xbaaee17fa23ebf76, -1193), 0xbaaee17fa23ebf765d79bcf00d2df649)
    case 2 => Entry(Deco(0x8b16fb203055ac76, -1166), 0x8b16fb203055ac764c3bcb5021afcc31)
    case 3 => Entry(Deco(0xcf42894a5dce35ea, -1140), 0xcf42894a5dce35ea52064cac828675b9)
    case 4 => Entry(Deco(0x9a6bb0aa55653b2d, -1113), 0x9a6bb0aa55653b2d47b233c92125366e)
    case 5 => Entry(Deco(0xe61acf033d1a45df, -1087), 0xe61acf033d1a45df6fb92487298e33bd)
    case 6 => Entry(Deco(0xab70fe17c79ac6ca, -1060), 0xab70fe17c79ac6ca6dbd630a48aaf406)
    case _ => Entry(Deco(0xff77b1fcbebcdc4f, -1034), 0xff77b1fcbebcdc4f25e8e89c13bb0f7a)
  }

  function Row1(i: nat): Entry
    requires 8 <= i < 16
  {
    match i
    case 8 => Entry(Deco(0xbe5691ef416bd60c, -1007), 0xbe5691ef416bd60c23cc986bc656d553)
    case 9 => Entry(Deco(0x8dd01fad907ffc3c, -980), 0x8dd01fad907ffc3bae3da7d97f6792e3)
    case 10 => Entry(Deco(0xd3515c2831559a83, -954), 0xd3515c2831559a830d5a5b44ca873e03)
    case 11 => Entry(Deco(0x9d71ac8fada6c9b5, -927), 0x9d71ac8fada6c9b56f773fc3603db4a9)
    case 12 => Entry(Deco(0xea9c227723ee8bcb, -901), 0xea9c227723ee8bcb465e15a979c1cadc)
    case 13 => Entry(Deco(0xaecc49914078536d, -874), 0xaecc49914078536d58fae9f773886e18)
    case 14 => Entry(Deco(0x823c12795db6ce57, -847), 0x823c12795db6ce5776c53d08d6b70858)
    case _ => Entry(Deco(0xc21094364dfb5637, -821), 0xc21094364dfb5636985915fc12f542e4)
  }

  function Row2(i: nat): Entry
    requires 16 <= i < 24
  {
    match i
    case 16 => Entry(Deco(0x9096ea6f3848984f, -794), 0x9096ea6f3848984f3ff0d2c85def7621)
    case 17 => Entry(Deco(0xd77485cb25823ac7, -768), 0xd77485cb25823ac77d633293366b828b)
    case 18 => Entry(Deco(0xa086cfcd97bf97f4, -741), 0xa086cfcd97bf97f380e8a40eccd228a4)
    case 19 => Entry(Deco(0xef340a98172aace5, -715), 0xef340a98172aace486fb897116c87c34)
    case 20 => Entry(Deco(0xb23867fb2a35b28e, -688), 0xb23867fb2a35b28de99e619a4f23aa43)
    case 21 => Entry(Deco(0x84c8d4dfd2c63f3b, -661), 0x84c8d4dfd2c63f3b29ecd9f40041e073)
    case 22 => Entry(Deco(0xc5dd44271ad3cdba, -635), 0xc5dd44271ad3cdba40eff1e1853f29fd)
    case _ => Entry(Deco(0x936b9fcebb25c996, -608), 0x936b9fcebb25c995cab10dd900beec34)
  }

  function Row3(i: nat): Entry
    requires 24 <= i < 32
  {
    match i
    case 24 => Entry(Deco(0xdbac6c247d62a584, -582), 0xdbac6c247d62a583df45f746b74abf39)
    case 25 => Entry(Deco(0xa3ab66580d5fdaf6, -555), 0xa3ab66580d5fdaf5c13e60d0d2e0ebba)
    case 26 => Entry(Deco(0xf3e2f893dec3f126, -529), 0xf3e2f893dec3f1265a89dba3c3efccfa)
    case 27 => Entry(Deco(0xb5b5ada8aaff80b8, -502), 0xb5b5ada8aaff80b80d819992132456ba)
    case 28 => Entry(Deco(0x87625f056c7c4a8b, -475), 0x87625f056c7c4a8b11471cd764ad4972)
    case 29 => Entry(Deco(0xc9bcff6034c13053, -449), 0xc9bcff6034c13052fc89b393dd02f0b5)
    case 30 => Entry(Deco(0x964e858c91ba2655, -422), 0x964e858c91ba26553a6a07f8d510f86f)
    case _ => Entry(Deco(0xdff9772470297ebd, -396), 0xdff9772470297ebd59787e2b93bc56f7)
  }

  function Row4(i: nat): Entry
    requires 32 <= i < 40
  {
    match i
    case 32 => Entry(Deco(0xa6dfbd9fb8e5b88f, -369), 0xa6dfbd9fb8e5b88ecb4ccd500f6bb952)
    case 33 => Entry(Deco(0xf8a95fcf88747d94, -343), 0xf8a95fcf88747d9475a44c6397ce912a)
    case 34 => Entry(Deco(0xb94470938fa89bcf, -316), 0xb94470938fa89bcef808e40e8d5b3e69)
    case 35 => Entry(Deco(0x8a08f0f8bf0f156b, -289), 0x8a08f0f8bf0f156b1b8e9ecb641b58ff)
    case 36 => Entry(Deco(0xcdb02555653131b6, -263), 0xcdb02555653131b63792f412cb06794d)
    case 37 => Entry(Deco(0x993fe2c6d07b7fac, -236), 0x993fe2c6d07b7fabe546a8038efe4029)
    case 38 => Entry(Deco(0xe45c10c42a2b3b06, -210), 0xe45c10c42a2b3b058cb89a7db77c506a)
    case _ => Entry(Deco(0xaa242499697392d3, -183), 0xaa242499697392d2dde50bd1d5d0b9e9)
  }

  function Row5(i: nat): Entry
    requires 40 <= i < 48
  {
    match i
    case 40 => Entry(Deco(0xfd87b5f28300ca0e, -157), 0xfd87b5f28300ca0d8bca9d6e188853fc)
    case 41 => Entry(Deco(0xbce5086492111aeb, -130), 0xbce5086492111aea88f4bb1ca6bcf584)
    case 42 => Entry(Deco(0x8cbccc096f5088cc, -103), 0x8cbccc096f5088cbf93f87b7442e45d3)
    case 43 => Entry(Deco(0xd1b71758e219652c, -77), 0xd1b71758e219652bd3c36113404ea4a8)
    case 44 => Entry(Deco(0x9c40000000000000, -50), 0x9c400000000000000000000000000000)
    case 45 => Entry(Deco(0xe8d4a51000000000, -24), 0xe8d4a510000000000000000000000000)
    case 46 => Entry(Deco(0xad78ebc5ac620000, 3), 0xad78ebc5ac6200000000000000000000)
    case _ => Entry(Deco(0x813f3978f8940984, 30), 0x813f3978f89409844000000000000000)
  }

  function Row6(i: nat): Entry
    requires 48 <= i < 56
  {
    match i
    case 48 => Entry(Deco(0xc097ce7bc90715b3, 56), 0xc097ce7bc90715b34b9f100000000000)
    case 49 => Entry(Deco(0x8f7e32ce7bea5c70, 83), 0x8f7e32ce7bea5c6fe4820023a2000000)
    case 50 => Entry(Deco(0xd5d238a4abe98068, 109), 0xd5d238a4abe9806872a4904598d6d880)
    case 51 => Entry(Deco(0x9f4f2726179a2245, 136), 0x9f4f2726179a224501d762422c946590)
    case 52 => Entry(Deco(0xed63a231d4c4fb27, 162), 0xed63a231d4c4fb274ca7aaa863ee4bdd)
    case 53 => Entry(Deco(0xb0de65388cc8ada8, 189), 0xb0de65388cc8ada83b25a55f43294bcb)
    case 54 => Entry(Deco(0x83c7088e1aab65db, 216), 0x83c7088e1aab65db792667c6da79e0fa)
    case _ => Entry(Deco(0xc45d1df942711d9a, 242), 0xc45d1df942711d9a3ba5d0bd324f8394)
  }

  function Row7(i: nat): Entry
    requires 56 <= i < 64
  {
    match i
    case 56 => Entry(Deco(0x924d692ca61be758, 269), 0x924d692ca61be758593c2626705f9c56)
    case 57 => Entry(Deco(0xda01ee641a708dea, 295), 0xda01ee641a708de9e80e6f4820cc9495)
    case 58 => Entry(Deco(0xa26da3999aef774a, 322), 0xa26da3999aef7749e3be5e330f38f09d)
    case 59 => Entry(Deco(0xf209787bb47d6b85, 348), 0xf209787bb47d6b84c0678c5dbd23a49a)
    case 60 => Entry(Deco(0xb454e4a179dd1877, 375), 0xb454e4a179dd187729babe4598c311fb)
    case 61 => Entry(Deco(0x865b86925b9bc5c2, 402), 0x865b86925b9bc5c20b8a2392ba45a9b2)
    case 62 => Entry(Deco(0xc83553c5c8965d3d, 428), 0xc83553c5c8965d3d6f92829494e5acc7)
    case _ => Entry(Deco(0x952ab45cfa97a0b3, 455), 0x952ab45cfa97a0b2dd945a747bf26183)
  }

  function Row8(i: nat): Entry
    requires 64 <= i < 72
  {
    match i
    case 64 => Entry(Deco(0xde469fbd99a05fe3, 481), 0xde469fbd99a05fe36fca5f8ed9aef3bb)
    case 65 => Entry(Deco(0xa59bc234db398c25, 508), 0xa59bc234db398c2543fab9837e699095)
    case 66 => Entry(Deco(0xf6c69a72a3989f5c, 534), 0xf6c69a72a3989f5b8aad549e57273d45)
    case 67 => Entry(Deco(0xb7dcbf5354e9bece, 561), 0xb7dcbf5354e9bece0c11ed6d538aeb2f)
    case 68 => Entry(Deco(0x88fcf317f22241e2, 588), 0x88fcf317f22241e2441fece3bdf81f03)
    case 69 => Entry(Deco(0xcc20ce9bd35c78a5, 614), 0xcc20ce9bd35c78a531ec038df7b441f4)
    case 70 => Entry(Deco(0x98165af37b2153df, 641), 0x98165af37b2153dec3727a337a8b704a)
    case _ => Entry(Deco(0xe2a0b5dc971f303a, 667), 0xe2a0b5dc971f303a2e44ae64840fd61d)
  }

  function Row9(i: nat): Entry
    requires 72 <= i < 80
  {
    match i
    case 72 => Entry(Deco(0xa8d9d1535ce3b396, 694), 0xa8d9d1535ce3b3967f1839a741a14d0d)
    case 73 => Entry(Deco(0xfb9b7cd9a4a7443c, 720), 0xfb9b7cd9a4a7443c169840ef017da3b1)
    case 74 => Entry(Deco(0xbb764c4ca7a44410, 747), 0xbb764c4ca7a4440f9d6d1ad41abe37f1)
    case 75 => Entry(Deco(0x8bab8eefb6409c1a, 774), 0x8bab8eefb6409c1a1ad089b6c2f7548e)
    case 76 => Entry(Deco(0xd01fef10a657842c, 800), 0xd01fef10a657842c2d2b7569b0432d85)
    case 77 => Entry(Deco(0x9b10a4e5e9913129, 827), 0x9b10a4e5e9913128ca7cf2b4191c8326)
    case 78 => Entry(Deco(0xe7109bfba19c0c9d, 853), 0xe7109bfba19c0c9d0cc512670a783ad4)
    case _ => Entry(Deco(0xac2820d9623bf429, 880), 0xac2820d9623bf429546345fa9fbdcd44)
  }

  function Row10(i: nat): Entry
    requires 80 <= i < 87
  {
    match i
    case 80 => Entry(Deco(0x80444b5e7aa7cf85, 907), 0x80444b5e7aa7cf857980d163cf5b81b3)
    case 81 => Entry(Deco(0xbf21e44003acdd2d, 933), 0xbf21e44003acdd2ce0470a63e6bd56c3)
    case 82 => Entry(Deco(0x8e679c2f5e44ff8f, 960), 0x8e679c2f5e44ff8f570f09eaa7ea7648)
    case 83 => Entry(Deco(0xd433179d9c8cb841, 986), 0xd433179d9c8cb8415fa60692a46151eb)
    case 84 => Entry(Deco(0x9e19db92b4e31ba9, 1013), 0x9e19db92b4e31ba96c07a2c26a8346d1)
    case 85 => Entry(Deco(0xeb96bf6ebadf77d9, 1039), 0xeb96bf6ebadf77d8e41c5bd18c57e88f)
    case _ => Entry(Deco(0xaf87023b9bf0ee6b, 1066), 0xaf87023b9bf0ee6aeb8fad7c7f8680b4)
  }

  /** What is checked of each entry and the next. */
  predicate EntryOk(i: nat)
    requires i < 87
  {
    EntryFits(Cached(i), 8 * i - 348) && (i < 86 ==> StepOk(Cached(i), Cached(i + 1)))
  }

  /** The mantissa has its top bit set, and is within half a unit of the fine value, with a margin; the
      exponent is that of 10^k. */
  predicate EntryFits(e: Entry, k: int) {
    && TWO63 <= e.power.mant < TWO64
    && 0 - HALF < e.power.mant * TWO64 - e.fine < HALF
    && 63 * LOG <= k * TEN17 - e.power.exp * LOG < 64 * LOG
  }

  const HALF := 0x7FF0_0000_0000_0000       // below 2^63 by more than the error of the fine values
  const LOG := 30102999566398114            // the factor of the source, in units of 10^-17
  const TEN17 := 100000000000000000

  /** The fine values of two neighbours are 10^8 apart. */
  predicate StepOk(e: Entry, next: Entry) {
    && next.power.exp - e.power.exp in {26, 27}
    && var p := if next.power.exp - e.power.exp == 26 then 0x400_0000 else 0x800_0000;
       0 - 100000000 <= e.fine * 100000000 - next.fine * p <= p
  }

  lemma Entries0(i: nat)
    requires 0 <= i < 4
    ensures EntryOk(i)
  {
    assert EntryOk(0) && EntryOk(1) && EntryOk(2) && EntryOk(3);
  }

  lemma Entries4(i: nat)
    requires 4 <= i < 8
    ensures EntryOk(i)
  {
    assert EntryOk(4) && EntryOk(5) && EntryOk(6) && EntryOk(7);
  }

  lemma Entries8(i: nat)
    requires 8 <= i < 12
    ensures EntryOk(i)
  {
    assert EntryOk(8) && EntryOk(9) && EntryOk(10) && EntryOk(11);
  }

  lemma Entries12(i: nat)
    requires 12 <= i < 16
    ensures EntryOk(i)
  {
    assert EntryOk(12) && EntryOk(13) && EntryOk(14) && EntryOk(15);
  }

  lemma Entries16(i: nat)
    requires 16 <= i < 20
    ensures EntryOk(i)
  {
    assert EntryOk(16) && EntryOk(17) && EntryOk(18) && EntryOk(19);
  }

  lemma Entries20(i: nat)
    requires 20 <= i < 24
    ensures EntryOk(i)
  {
    assert EntryOk(20) && EntryOk(21) && EntryOk(22) && EntryOk(23);
  }

  lemma Entries24(i: nat)
    requires 24 <= i < 28
    ensures EntryOk(i)
  {
    assert EntryOk(24) && EntryOk(25) && EntryOk(26) && EntryOk(27);
  }

  lemma Entries28(i: nat)
    requires 28 <= i < 32
    ensures EntryOk(i)
  {
    assert EntryOk(28) && EntryOk(29) && EntryOk(30) && EntryOk(31);
  }

  lemma Entries32(i: nat)
    requires 32 <= i < 36
    ensures EntryOk(i)
  {
    assert EntryOk(32) && EntryOk(33) && EntryOk(34) && EntryOk(35);
  }

  lemma Entries36(i: nat)
    requires 36 <= i < 40
    ensures EntryOk(i)
  {
    assert EntryOk(36) && EntryOk(37) && EntryOk(38) && EntryOk(39);
  }

  lemma Entries40(i: nat)
    requires 40 <= i < 44
    ensures EntryOk(i)
  {
    assert EntryOk(40) && EntryOk(41) && EntryOk(42) && EntryOk(43);
  }

  lemma Entries44(i: nat)
    requires 44 <= i < 48
    ensures EntryOk(i)
  {
    assert EntryOk(44) && EntryOk(45) && EntryOk(46) && EntryOk(47);
  }

  lemma Entries48(i: nat)
    requires 48 <= i < 52
    ensures EntryOk(i)
  {
    assert EntryOk(48) && EntryOk(49) && EntryOk(50) && EntryOk(51);
  }

  lemma Entries52(i: nat)
    requires 52 <= i < 56
    ensures EntryOk(i)
  {
    assert EntryOk(52) && EntryOk(53) && EntryOk(54) && EntryOk(55);
  }

  lemma Entries56(i: nat)
    requires 56 <= i < 60
    ensures EntryOk(i)
  {
    assert EntryOk(56) && EntryOk(57) && EntryOk(58) && EntryOk(59);
  }

  lemma Entries60(i: nat)
    requires 60 <= i < 64
    ensures EntryOk(i)
  {
    assert EntryOk(60) && EntryOk(61) && EntryOk(62) && EntryOk(63);
  }

  lemma Entries64(i: nat)
    requires 64 <= i < 68
    ensures EntryOk(i)
  {
    assert EntryOk(64) && EntryOk(65) && EntryOk(66) && EntryOk(67);
  }

  lemma Entries68(i: nat)
    requires 68 <= i < 72
    ensures EntryOk(i)
  {
    assert EntryOk(68) && EntryOk(69) && EntryOk(70) && EntryOk(71);
  }

  lemma Entries72(i: nat)
    requires 72 <= i < 76
    ensures EntryOk(i)
  {
    assert EntryOk(72) && EntryOk(73) && EntryOk(74) && EntryOk(75);
  }

  lemma Entries76(i: nat)
    requires 76 <= i < 80
    ensures EntryOk(i)
  {
    assert EntryOk(76) && EntryOk(77) && EntryOk(78) && EntryOk(79);
  }

  lemma Entries80(i: nat)
    requires 80 <= i < 84
    ensures EntryOk(i)
  {
    assert EntryOk(80) && EntryOk(81) && EntryOk(82) && EntryOk(83);
  }

  lemma Entries84(i: nat)
    requires 84 <= i < 87
    ensures EntryOk(i)
  {
    assert EntryOk(84) && EntryOk(85) && EntryOk(86);
  }

  lemma EntriesOk(i: nat)
    requires i < 87
    ensures EntryOk(i)
  {
    if i < 4 { Entries0(i); }
    else if i < 8 { Entries4(i); }
    else if i < 12 { Entries8(i); }
    else if i < 16 { Entries12(i); }
    else if i < 20 { Entries16(i); }
    else if i < 24 { Entries20(i); }
    else if i < 28 { Entries24(i); }
    else if i < 32 { Entries28(i); }
    else if i < 36 { Entries32(i); }
    else if i < 40 { Entries36(i); }
    else if i < 44 { Entries40(i); }
    else if i < 48 { Entries44(i); }
    else if i < 52 { Entries48(i); }
    else if i < 56 { Entries52(i); }
    else if i < 60 { Entries56(i); }
    else if i < 64 { Entries60(i); }
    else if i < 68 { Entries64(i); }
    else if i < 72 { Entries68(i); }
    else if i < 76 { Entries72(i); }
    else if i < 80 { Entries76(i); }
    else if i < 84 { Entries80(i); }
    else { Entries84(i); }
  }

  // ----- how close the entries are

  lemma TenEight(ten: Powers, k: int)
    requires Geometric(ten, 10.0)
    ensures ten(k + 8) == 100000000.0 * ten(k)
  {
    assert NextAt(ten, 10.0, k) && NextAt(ten, 10.0, k + 1) && NextAt(ten, 10.0, k + 2) && NextAt(ten, 10.0, k + 3);
    assert NextAt(ten, 10.0, k + 4) && NextAt(ten, 10.0, k + 5) && NextAt(ten, 10.0, k + 6) && NextAt(ten, 10.0, k + 7);
  }

  lemma TwoStep(two: Powers, e: int)
    requires Geometric(two, 2.0)
    ensures two(e + 26) == 67108864.0 * two(e) && two(e + 27) == 134217728.0 * two(e)
  {
    Sum(two, 2.0, e, 26);
    Pow2IsTwoTo(two, 26);
    Pow2Of26();
    assert two(e) * two(26) == 67108864.0 * two(e);
    assert NextAt(two, 2.0, e + 26);
  }

  lemma Pow2Of26()
    ensures Pow2(26) == 67108864
  {
    assert Pow2(13) == 8192;
    Pow2Sum(13, 13);
  }

  lemma ExactStep(two: Powers, ten: Powers, k: int, e: int, e': int)
    requires Geometric(two, 2.0) && Geometric(ten, 10.0) && e' - e in {26, 27}
    ensures ten(k + 8) * two(-e') * (if e' - e == 26 then 67108864.0 else 134217728.0) == ten(k) * two(-e) * 100000000.0
  {
    TenEight(ten, k);
    TwoStep(two, -e');
    ProductStep(ten(k), ten(k + 8), two(-e), two(-e'), e' - e == 26);
  }

  lemma ProductStep(a: real, a': real, b: real, b': real, small: bool)
    requires a' == 100000000.0 * a && b == (if small then 67108864.0 else 134217728.0) * b'
    ensures a' * b' * (if small then 67108864.0 else 134217728.0) == a * b * 100000000.0
  {
  }

  /** How far the fine value j entries from the exact one may be off. */
  function Slack(j: nat): nat { if j == 0 then 0 else 2 * Slack(j - 1) + 2 }

  lemma {:induction false} SlackIs(j: nat)
    ensures Slack(j) + 2 == Pow2(j + 1)
  {
    if j > 0 {
      SlackIs(j - 1);
    }
  }

  function Distance(i: int): nat { if i < 44 then 44 - i else i - 44 }

  ghost predicate FineAt(two: Powers, ten: Powers, k: int, e: Entry, slack: nat) {
    var d := ten(k) * two(-e.power.exp) * (TWO64 as real) - e.fine as real;
    -(slack as real) <= d <= slack as real
  }

  /** A table of entries 10^8 apart, as a parameter of what follows from that alone. */
  type Table = nat -> Entry

  ghost predicate StepAt(table: Table, i: nat) { StepOk(table(i), table(i + 1)) }

  ghost predicate FineEntry(two: Powers, ten: Powers, table: Table, i: nat) {
    FineAt(two, ten, 8 * i - 348, table(i), Slack(Distance(i)))
  }

  /** Entry 44 is 10^4 exactly. From there the error no more than doubles from entry to entry, both ways. */
  lemma {:induction false} FineIsClose(two: Powers, ten: Powers, table: Table, i: nat)
    requires Geometric(two, 2.0) && Geometric(ten, 10.0) && i < 87
    requires FineEntry(two, ten, table, 44) && forall j: nat :: j < 86 ==> StepAt(table, j)
    ensures FineEntry(two, ten, table, i)
    decreases Distance(i)
  {
    if i > 44 {
      FineIsClose(two, ten, table, i - 1);
      assert StepAt(table, i - 1);
      FineUp(two, ten, 8 * (i - 1) - 348, table(i - 1), table(i), Slack(i - 45));
    } else if i < 44 {
      FineIsClose(two, ten, table, i + 1);
      assert StepAt(table, i);
      FineDown(two, ten, 8 * i - 348, table(i), table(i + 1), Slack(43 - i));
    }
  }

  function CachedOrLast(i: nat): Entry { if i < 87 then Cached(i) else Cached(86) }

  lemma CachedSteps()
    ensures forall i: nat :: i < 86 ==> StepAt(CachedOrLast, i)
  {
    forall i: nat | i < 86 ensures StepAt(CachedOrLast, i) {
      EntriesOk(i);
    }
  }

  lemma FirstIsExact(two: Powers, ten: Powers)
    requires Geometric(two, 2.0) && Geometric(ten, 10.0)
    ensures FineEntry(two, ten, CachedOrLast, 44)
  {
    FourAndFifty(two, ten);
    assert Cached(44) == Entry(Deco(10000 * 1125899906842624, -50), 10000 * 1125899906842624 * TWO64);
    assert Slack(0) == 0;
  }

  lemma FourAndFifty(two: Powers, ten: Powers)
    requires Geometric(two, 2.0) && Geometric(ten, 10.0)
    ensures ten(4) == 10000.0 && two(50) == 1125899906842624.0
  {
    assert NextAt(ten, 10.0, 0) && NextAt(ten, 10.0, 1) && NextAt(ten, 10.0, 2) && NextAt(ten, 10.0, 3);
    TwoStep(two, 0);
    TwoStep(two, 24);
    Pow2IsTwoTo(two, 24);
    assert Pow2(12) == 4096;
    Pow2Sum(12, 12);
  }

  lemma FineUp(two: Powers, ten: Powers, k: int, e: Entry, e': Entry, slack: nat)
    requires Geometric(two, 2.0) && Geometric(ten, 10.0) && StepOk(e, e') && FineAt(two, ten, k, e, slack)
    ensures FineAt(two, ten, k + 8, e', 2 * slack + 2)
  {
    ExactStep(two, ten, k, e.power.exp, e'.power.exp);
    NextFine(ten(k) * two(-e.power.exp), ten(k + 8) * two(-e'.power.exp), e, e', slack);
  }

  lemma FineDown(two: Powers, ten: Powers, k: int, e: Entry, e': Entry, slack: nat)
    requires Geometric(two, 2.0) && Geometric(ten, 10.0) && StepOk(e, e') && FineAt(two, ten, k + 8, e', slack)
    ensures FineAt(two, ten, k, e, 2 * slack + 2)
  {
    ExactStep(two, ten, k, e.power.exp, e'.power.exp);
    LastFine(ten(k) * two(-e.power.exp), ten(k + 8) * two(-e'.power.exp), e, e', slack);
  }

  lemma NextFine(x: real, x': real, e: Entry, e': Entry, slack: nat)
    requires StepOk(e, e')
    requires x' * (if e'.power.exp - e.power.exp == 26 then 67108864.0 else 134217728.0) == x * 100000000.0
    requires -(slack as real) <= x * (TWO64 as real) - e.fine as real <= slack as real
    ensures -((2 * slack + 2) as real) <= x' * (TWO64 as real) - e'.fine as real <= (2 * slack + 2) as real
  {
  }

  lemma LastFine(x: real, x': real, e: Entry, e': Entry, slack: nat)
    requires StepOk(e, e')
    requires x' * (if e'.power.exp - e.power.exp == 26 then 67108864.0 else 134217728.0) == x * 100000000.0
    requires -(slack as real) <= x' * (TWO64 as real) - e'.fine as real <= slack as real
    ensures -((2 * slack + 2) as real) <= x * (TWO64 as real) - e.fine as real <= (2 * slack + 2) as real
  {
  }

  ghost predicate CloseAt(two: Powers, ten: Powers, k: int, power: Deco) {
    -0.5 < power.mant as real - ten(k) * two(-power.exp) < 0.5
  }

  /** Every entry of the table is within half a unit of its power of ten. */
  lemma PowerIsClose(two: Powers, ten: Powers, i: nat)
    requires Geometric(two, 2.0) && Geometric(ten, 10.0) && i < 87
    ensures CloseAt(two, ten, 8 * i - 348, Cached(i).power)
  {
    FirstIsExact(two, ten);
    CachedSteps();
    FineIsClose(two, ten, CachedOrLast, i);
    EntriesOk(i);
    SlackIsSmall(Distance(i));
    CloseBy(two, ten, 8 * i - 348, Cached(i), Slack(Distance(i)));
  }

  lemma CloseBy(two: Powers, ten: Powers, k: int, e: Entry, slack: nat)
    requires EntryFits(e, k) && slack < 0x4000_0000_0000 && FineAt(two, ten, k, e, slack)
    ensures CloseAt(two, ten, k, e.power)
  {
    HalfUnit(e.power.mant, e.fine, ten(k) * two(-e.power.exp), slack);
  }

  lemma HalfUnit(mant: int, fine: int, x: real, slack: nat)
    requires 0 - HALF < mant * TWO64 - fine < HALF && slack < 0x4000_0000_0000
    requires -(slack as real) <= x * (TWO64 as real) - fine as real <= slack as real
    ensures -0.5 < mant as real - x < 0.5
  {
  }

  lemma SlackIsSmall(j: nat)
    requires j <= 44
    ensures Slack(j) < 0x4000_0000_0000
  {
    SlackIs(j);
    Pow2Monotone(j + 1, 45);
    Pow2Of26();
    assert Pow2(19) == 524288;
    Pow2Sum(26, 19);
  }

  // ----- the choice

  /** A cast of a real quotient to int: towards zero. */
  function Truncate(n: int, d: nat): int
    requires d > 0
  {
    if n >= 0 then n / d else -((-n) / d)
  }

  /** nExp10 for a binary exponent: (-61 - exp) * log10(2) + 347, rounded up. */
  function DecimalExponent(exp: int): int {
    var n := (-61 - exp) * LOG + 347 * TEN17;
    var t := Truncate(n, TEN17);
    if t * TEN17 != n then t + 1 else t
  }

  /** GetCachedPower: a power of ten, and the exponent of ten that it takes off. */
  function GetCachedPower(exp: int): (Deco, int) {
    var index := DecimalExponent(exp) / 8 + 1;
    if 0 <= index < 87 then (Cached(index).power, 348 - 8 * index) else (Cached(86).power, 0)
  }

  /** For the upper boundary of any double the index is in the table, and the scaled boundary has from 34 to
      60 bits behind the point. */
  lemma CachedPowerFits(exp: int)
    requires -1137 <= exp <= 960
    ensures var index := DecimalExponent(exp) / 8 + 1;
            && 0 <= index < 87 && GetCachedPower(exp) == (Cached(index).power, 348 - 8 * index)
            && 34 <= -(exp + Cached(index).power.exp + 64) <= 60
  {
    var n := (-61 - exp) * LOG + 347 * TEN17;
    var k := DecimalExponent(exp);
    assert n > 0 && (k - 1) * TEN17 < n <= k * TEN17;
    var index := k / 8 + 1;
    assert 8 * index - 8 <= k <= 8 * index - 1;
    EntriesOk(index);
  }
}
