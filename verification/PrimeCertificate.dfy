/**
 That the P-256 modulus is prime: for each prime in a descending chain an element of known order, its
 powers along the bits of the exponent, and inverses that keep the order from being smaller.

 `Q<n>` is a prime of `n` bits, `B<n>` the element for it, and `H<n>` that element raised to the second
 prime of its order where the order has two.
 */
module PrimeCertificate {
  import opened Modular
  import opened Words
  import opened Primality

  const P256: nat := 0xffffffff00000001000000000000000000000000ffffffffffffffffffffffff
  const B256: nat := 0x6e2de1e253b630ab90fb6c14c9913e3f79353ced1be9c68ed42e7ee18b96074e
  const Q160: nat := 0x926d1276e41fae13fdda5f78edb7802a76951509
  const B160: nat := 0x84f6174410b13b7c641bfb1c0429a24ea8e8db82
  const Q150: nat := 0x22b559b5c816ae00f2378e18df38c5410ed597
  const B150: nat := 0x1efd94eae6545baeee572aee922683ab22f9a9
  const H150: nat := 0xac1f69987a98cd70795a5538e728fc5b374b2
  const Q56: nat := 0xa3b2bf8c32ceaf
  const B56: nat := 0x317e18588eb1fa
  const H56: nat := 0x3505c3c9f91b61
  const Q44: nat := 0xa44e179dccf
  const B44: nat := 0xa027eda446c
  const Q36: nat := 0xf76c8ffcb
  const B36: nat := 0xc77bbc624
  const H36: nat := 0xf6b013cde

  // ---------- trial division ----------

  lemma RootBound(d: nat, n: nat, bound: nat)
    requires d * d <= n < bound * bound
    ensures d < bound
  {
    if bound <= d {
      ProductMonotone(bound, bound, d);
      ProductMonotone(d, bound, d);
    }
  }

  lemma N704251Trial0(d: nat)
    requires 2 <= d < 250
    ensures 704251 % d != 0
  {
  }

  lemma N704251Trial1(d: nat)
    requires 250 <= d < 500
    ensures 704251 % d != 0
  {
  }

  lemma N704251Trial2(d: nat)
    requires 500 <= d < 750
    ensures 704251 % d != 0
  {
  }

  lemma N704251Trial3(d: nat)
    requires 750 <= d < 840
    ensures 704251 % d != 0
  {
  }

  lemma N704251Prime()
    ensures Prime(704251)
  {
    forall d: nat | 2 <= d && d * d <= 704251 ensures 704251 % d != 0 {
      RootBound(d, 704251, 840);
      if d < 250 {
        N704251Trial0(d);
      } else if d < 500 {
        N704251Trial1(d);
      } else if d < 750 {
        N704251Trial2(d);
      } else {
        N704251Trial3(d);
      }
    }
    TrialDivision(704251);
  }

  lemma N78283Trial(d: nat)
    requires 2 <= d < 280
    ensures 78283 % d != 0
  {
  }

  lemma N78283Prime()
    ensures Prime(78283)
  {
    forall d: nat | 2 <= d && d * d <= 78283 ensures 78283 % d != 0 {
      RootBound(d, 78283, 280);
      N78283Trial(d);
    }
    TrialDivision(78283);
  }

  lemma N3677Trial(d: nat)
    requires 2 <= d < 61
    ensures 3677 % d != 0
  {
  }

  lemma N3677Prime()
    ensures Prime(3677)
  {
    forall d: nat | 2 <= d && d * d <= 3677 ensures 3677 % d != 0 {
      RootBound(d, 3677, 61);
      N3677Trial(d);
    }
    TrialDivision(3677);
  }

  lemma N197Trial(d: nat)
    requires 2 <= d < 15
    ensures 197 % d != 0
  {
  }

  lemma N197Prime()
    ensures Prime(197)
  {
    forall d: nat | 2 <= d && d * d <= 197 ensures 197 % d != 0 {
      RootBound(d, 197, 15);
      N197Trial(d);
    }
    TrialDivision(197);
  }

  // ---------- the chain ----------

  lemma P256OrderPart0()
    ensures Cong(Power(B256, 0x124da24edc8), 0x3e3fdfe8914536239fee579f8aa891e2ee55616f4e1283a2db43321f9395a3a7, P256)
  {
    hide Cong, Power;
    var e, v := FirstBit(P256, B256);
    e, v := Square(P256, B256, e, v, 0xcddc511f363c3bb8116b46458a69d7a0274a503b440caa7d25c8bd87ae161f53);
    e, v := Square(P256, B256, e, v, 0xf79fde8fbf89aae855a0596c22b0b85f5bcd6d8f9b65645e3aef7c4ee11869e5);
    e, v := SquareTimes(P256, B256, e, v, 0x2424054e17717adb6c1cdaedeb038be8a41730d82100f79025d74a6d2fc0a50d);
    e, v := Square(P256, B256, e, v, 0x879bb72ae39322e9f2c313257d2b5fb5164c8c9c6532d0d59b48e3fff34cf680);
    e, v := Square(P256, B256, e, v, 0xdc4c84ad702a12f7d6776a29a083b34a51ee48870c3f49e1130ddcb2c7f9f5e3);
    e, v := SquareTimes(P256, B256, e, v, 0xcca2c3e3e84998a223ab8395c3faa652766f97b865db3ffe07d5a5c2d569ef1e);
    e, v := Square(P256, B256, e, v, 0x4946130ffc61cddf804f4e56aec674a27bb4d0ae18dfd60af2870ed09e9e7f29);
    e, v := Square(P256, B256, e, v, 0x995ff5dd604f3f3d47db2b4b08b5583a68e2a6c39a99b286cf52cfd6bb16441b);
    e, v := SquareTimes(P256, B256, e, v, 0xdc738799e5a80a6e1026d7c1de48f0f1108146a39029b6fb3d91381470501c53);
    e, v := SquareTimes(P256, B256, e, v, 0x4a77d791d7232e39b7d138dd4a507a02a39eea337e8ac6e6cb8a13b6217ea7e8);
    e, v := Square(P256, B256, e, v, 0xc756eca9e9297003f1c395e1dc4812cbe6855c9d3b050a71b7295dbc62903a37);
    e, v := SquareTimes(P256, B256, e, v, 0xa2af4fd7330a952d6c745ae4208e4c44776cb1ad8856c122d19b29594b5c3845);
    e, v := SquareTimes(P256, B256, e, v, 0xacead5859071a32c4d5df713641d54fa2b7e5fb53c437683aabafea7773bcd34);
    e, v := Square(P256, B256, e, v, 0x8e8005e3af3431299cbf16c138022892c11d33650add48727fe054f0146f014a);
    e, v := SquareTimes(P256, B256, e, v, 0x915341fb411034e524984ea48a0dfeeef468d1d04acd46efa44bda1cb2772594);
    e, v := Square(P256, B256, e, v, 0x89111d07d11cd7e2efead86c984b6ad8d2397c8a99ed6f350ff3c60e045d4798);
    e, v := Square(P256, B256, e, v, 0x176c1613fbbbc6718d1d70a477c9310966b694db3ffef5a2dcdb1872c8ff09f5);
    e, v := Square(P256, B256, e, v, 0x4c8f69c5f11fdeb89dba5979b3d8093bea95b215cdd207b737b5fbe903a30b93);
    e, v := SquareTimes(P256, B256, e, v, 0xae09b3f24bc8108c473d4b812170461c7804d36bf7583a754aa902029fcb6bfb);
    e, v := Square(P256, B256, e, v, 0xd0b7aaac9dfa38d28c33f25f099ddadf9c4fce0e0060288a0c52494d08cce68e);
    e, v := Square(P256, B256, e, v, 0xbea97a7bf5cfa9402817ae32191605f7a26d5056f5af5b11ccd1b0c86a2381fb);
    e, v := SquareTimes(P256, B256, e, v, 0x84408e080654661d5b71a4010d773258e91e0775ef1b23c6a5c652b4ff73d604);
    e, v := Square(P256, B256, e, v, 0x4f94b3786b8db5a18c1040363dc69878b40e98cd0370964fdf0c20aa938a9404);
    e, v := Square(P256, B256, e, v, 0xbc835037487eaa230f7bdc9923697913f8b312002f78ab1860f5afca571f5878);
    e, v := SquareTimes(P256, B256, e, v, 0x12e5b1dbcbc8b52ed76225e1685307004a8e000cd5cc98d51cccd75b60feb397);
    e, v := SquareTimes(P256, B256, e, v, 0x1ad84f481a0014d03f7e84224e99a64d240058618d72ebe8decbc8bb2930ae98);
    e, v := SquareTimes(P256, B256, e, v, 0x7724127d6951a3970ec0b2c8a78eee01425470f049fcd69788439c3905a4f2c7);
    e, v := Square(P256, B256, e, v, 0x21a4af4fcf0deab03648f938a648283f195da14ec655d8ed351c18272a3c5bdf);
    e, v := SquareTimes(P256, B256, e, v, 0xca7e627504f29ff3d561851fd5a1326f48f39586baacced4ac7d2c7e855b0846);
    e, v := SquareTimes(P256, B256, e, v, 0x36438d9c8dd2a52f131fa8a00314994af7f4bac63fb6251da846652c8cb29875);
    e, v := Square(P256, B256, e, v, 0x158273403d49ef2f1fa172df7d6c7e0694a2faffd0b7f4dfeec95be0c4e6de75);
    e, v := SquareTimes(P256, B256, e, v, 0xa51ab19a5a81de748c16854c8bc97a1f1e1f01bb58d5bf9cc0a4a71ef02eff46);
    e, v := SquareTimes(P256, B256, e, v, 0x94de782355901fc6ad2c89bba0d4bfdf585e2390e93f1054b3443af086a6ee8e);
    e, v := SquareTimes(P256, B256, e, v, 0x80334f77ab904f3f6b597eb98a469e87cec4aee39b3c074652b34cc134d64ac3);
    e, v := Square(P256, B256, e, v, 0xb05023910c224ab5413888d39192a77719ac4c6be1b938ae745aed3cbddb4e95);
    e, v := Square(P256, B256, e, v, 0x37e823a2e574044019fd1a9abd92a2e09b9dcb74c8d72339febf3eae7ccf9622);
    e, v := SquareTimes(P256, B256, e, v, 0x207db5725ffc0e7944f7a9b0f3f5810f452fe454c62184794aba9eddc48687c3);
    e, v := Square(P256, B256, e, v, 0x647682e233756a0af1116b35ef90356423bd0ac525f0ecb6aa27e20874104227);
    e, v := Square(P256, B256, e, v, 0xe2f8935d905b8ee0c26ec9cd043a2e39a508d47531e110d90b1783dfbcc10d7);
    e, v := Square(P256, B256, e, v, 0x3e3fdfe8914536239fee579f8aa891e2ee55616f4e1283a2db43321f9395a3a7);
  }

  lemma P256OrderPart1()
    ensures Cong(Power(B256, 0x124da24edc83f5c27fbb4), 0xacfaf7baa1a4eabd6dfb56f10a1f52c662b789970126279e0d82215d84fd2599, P256)
  {
    hide Cong, Power;
    P256OrderPart0();
    var e: nat, v := 0x124da24edc8, 0x3e3fdfe8914536239fee579f8aa891e2ee55616f4e1283a2db43321f9395a3a7;
    e, v := Square(P256, B256, e, v, 0xb46526c4e2493976800f1af7fe491a8f52a0b5652617e9e5153b562e07e5d1c8);
    e, v := Square(P256, B256, e, v, 0x32a0c030fdc68d4374332c68b78266edcb7aad36c101ac63f4ffa2d25d943ff0);
    e, v := SquareTimes(P256, B256, e, v, 0x7f2a2cbe2d4643ea18cbc4862f6823c46b3657c58d561ccbe2b57e67acc0cb0f);
    e, v := SquareTimes(P256, B256, e, v, 0xd9e21da083f8b4c4272f7a9c7dfa4d5f283d38b2701bc0b73b46fbab8612136);
    e, v := SquareTimes(P256, B256, e, v, 0x930c1a0f4bb0082ec7dd8fa41c29ef9c24db0e39d7d090ce9269b07e1c9eb0ed);
    e, v := SquareTimes(P256, B256, e, v, 0x1524a9e613146e82eb1314ad7561ccbd7e37c66b6843b98de9e231cbddb440b8);
    e, v := SquareTimes(P256, B256, e, v, 0xaaf06cb1fc86aac9a57feaca9518a476bc83d471519c5d778caa77da34d9a33f);
    e, v := SquareTimes(P256, B256, e, v, 0x9d69874fb5ccca2ccc1bd3d720731083b928ac63e539968d053982c3a31247e1);
    e, v := Square(P256, B256, e, v, 0x38942b114fc94eeed19bd538272381038b58ee128713b2d1f0eda597a9e62e81);
    e, v := SquareTimes(P256, B256, e, v, 0xea069b51b6b676a169b72877fc64ca3a8c3901c9ead1eefe22d711b0c5f19f9f);
    e, v := Square(P256, B256, e, v, 0xbe431b8e50607ed14ba7516e4e41de40f968a435529b09c22ee8088e5b2a7c91);
    e, v := SquareTimes(P256, B256, e, v, 0x155960672ea75a156f8a5c896fe554e2e60259bb79a9c60733cdc134d9da6b49);
    e, v := SquareTimes(P256, B256, e, v, 0xe0f72ba0f84ab2b434915a85a13fcc3f36363aaea5eb2574ebe975e9ab3c646e);
    e, v := SquareTimes(P256, B256, e, v, 0x26067a24fd12823013ad5ae5aa425368dd02297a4141a7bc71951e96af79e0ce);
    e, v := Square(P256, B256, e, v, 0x766508d308aa8b1c609fbe03f37e9b9a42081a94173f9a274c1f8202ee92a3af);
    e, v := Square(P256, B256, e, v, 0x55322f7295f5a7afb65ce67cf45463f675bd75c51bc57c8dc0a479156f059d4d);
    e, v := Square(P256, B256, e, v, 0x5b1b8cd13c461e47e54b37218306040d976cd5ce57352492a73100cf01235005);
    e, v := Square(P256, B256, e, v, 0xa7e5c9a7391a2a54de64697746407b1b7d8abc442af8d5c414296ebd7e38ec80);
    e, v := SquareTimes(P256, B256, e, v, 0x82802805119348987a5f9f7c23c9016e99538142cd41af52bb6e8f23c98810c6);
    e, v := Square(P256, B256, e, v, 0xe7b476ebd980d21b0c72ed1286337d082f185152dada0285220fa4a95a890641);
    e, v := Square(P256, B256, e, v, 0xc83ec017dad27096805096708f889790c3382caa9431a60cfdc216595bc57445);
    e, v := SquareTimes(P256, B256, e, v, 0x8fffa6867af8f8c0fc4276ef7cc2e39a7d95c2bc1bbcf7a0d4d9f5f781f9d094);
    e, v := SquareTimes(P256, B256, e, v, 0x1a3401e2c8490ff858d11ad75f211edb3ee42bcd760197f24bc512a086b6a98c);
    e, v := SquareTimes(P256, B256, e, v, 0x2f1a6114f5dc8ded73082c4672be9c5f8aca94ab5bc3231c93b413683a5f4a37);
    e, v := SquareTimes(P256, B256, e, v, 0xa0bc6a67eac99307424545eb465f9ddb571e73d586db77a2472ad92bd8038389);
    e, v := SquareTimes(P256, B256, e, v, 0x6ea696028ca52f70e2efd3e96c811614af5b683b8c5cc5750271fd48cdb075f);
    e, v := SquareTimes(P256, B256, e, v, 0x340fcb9349b4ae5e956cc7f244dcb7ef0ef5c2524b69a2e27177a4de8dfbfff1);
    e, v := SquareTimes(P256, B256, e, v, 0x3c2660cbcdd10e8173c4f3232b6d28f67187e4f6224e17292e8aa734a778ec84);
    e, v := SquareTimes(P256, B256, e, v, 0x4d3183fae0434b56549c13834cbb05078ed875bfdc68c4fc0c72a947b0126da8);
    e, v := Square(P256, B256, e, v, 0x110fc39a6f81d7188a4171cefc34cd51473fec758200c9d5fe75ce8789e6d714);
    e, v := SquareTimes(P256, B256, e, v, 0x2d014a91e13c37bccd0e1b0b5267edd616c0fdd52033969d302e7248f9d3d799);
    e, v := SquareTimes(P256, B256, e, v, 0xaccfaa6090e8a66fd4b9bd183844f8742b4c914758388eee734182fb7d8d947a);
    e, v := SquareTimes(P256, B256, e, v, 0x6505492395be582d61f23727c235714188fac98deccb75b55f4f7e4d2f46fa15);
    e, v := Square(P256, B256, e, v, 0x3ce63214e22a424b7b7b83007328f5393af1074877042a17e6a6e78dc315578c);
    e, v := SquareTimes(P256, B256, e, v, 0x7867315e55cd67f6f5ff6f41fc784e4c6da387997ece3cb1359cb2a80e30135f);
    e, v := SquareTimes(P256, B256, e, v, 0x893bf489d07add46cb1a363d20be8d3ab4905c1cc6f1b259c371aff5a81f31fc);
    e, v := Square(P256, B256, e, v, 0x78b9258ad14f06927d4fb79073fcae4b64d5b197e24f028c2ae6cd256d74ae1b);
    e, v := SquareTimes(P256, B256, e, v, 0xf6d1b56db13df93594af93138f6f71888a8e822055cdd1d2439c0827feae3d36);
    e, v := Square(P256, B256, e, v, 0xe9986cadf18c447af9303dcbeea94dd3a66184620c845eb88f4709ebf9af32a1);
    e, v := Square(P256, B256, e, v, 0xacfaf7baa1a4eabd6dfb56f10a1f52c662b789970126279e0d82215d84fd2599);
  }

  lemma P256OrderPart2()
    ensures Cong(Power(B256, 0x124da24edc83f5c27fbb4bef1db6f00), 0x24ca7edf1916fedbd42e8245f18b5264f4262dce9ed4102763c06a64d23eded0, P256)
  {
    hide Cong, Power;
    P256OrderPart1();
    var e: nat, v := 0x124da24edc83f5c27fbb4, 0xacfaf7baa1a4eabd6dfb56f10a1f52c662b789970126279e0d82215d84fd2599;
    e, v := SquareTimes(P256, B256, e, v, 0xc09bfb58b25bbc8663e56845844c8b41e1b3de8e1f4435fb96ccfee394ede82b);
    e, v := Square(P256, B256, e, v, 0x7358b2ac97204531a7aa6f3e8a92fb330705b7d0fb9d3bd26994c3f98666d72e);
    e, v := SquareTimes(P256, B256, e, v, 0x26e07153ce144a18a807f1c5558831593e9fff7f29aac6e831e68f786bf6f07c);
    e, v := SquareTimes(P256, B256, e, v, 0x8d2dae178db8125c2347e54e5137bf16e09659187417c9c843bd426388110f8a);
    e, v := SquareTimes(P256, B256, e, v, 0xb3f5afeafab8a7485f83235bd7ada25e20a187dc758936611a8060ebdaa167ca);
    e, v := SquareTimes(P256, B256, e, v, 0xbc5f7f6a3eedb0a9317832128677e3b07f68631405bc70594176a0cc06b56ac6);
    e, v := SquareTimes(P256, B256, e, v, 0xf748b3b73856f08e0cd598f836457183fc008b8907730f72a0b1fd0ecab3e9b5);
    e, v := Square(P256, B256, e, v, 0x2e3fa99cba0804fb99f4bae3be02d39a47c1d3461ed73f34a7238c8d39e8b63f);
    e, v := SquareTimes(P256, B256, e, v, 0xad086c82e29eb027f711e31bb8c78a7d58938c34402cc3d0cd368ff586d58010);
    e, v := SquareTimes(P256, B256, e, v, 0xd01c2ffaf667844ea9ca12f33c72cff2073ca8cda9a7417d77369172e2a05cee);
    e, v := SquareTimes(P256, B256, e, v, 0xadb9e70c82adecf22a0530d617fb36841bea00388b0ea12b25791b6808595c33);
    e, v := SquareTimes(P256, B256, e, v, 0x794723a7f272b49a318831d92d443c6572b1bf833f6206b7661b61d9d134da4c);
    e, v := Square(P256, B256, e, v, 0x1d4769ce1e7fcdc8278c4219bcafb504641ec253220d821adaab128b5b004349);
    e, v := Square(P256, B256, e, v, 0x50142f00523fea803a74f52b19f5f8f650b032d56adf6e4ac559db3048268711);
    e, v := Square(P256, B256, e, v, 0xd9b2da2165ba7d53b2b1ba2804ea3f1339df0bd60326b39c714cdaa39ce6a980);
    e, v := SquareTimes(P256, B256, e, v, 0x566529d688cd0ae5d8d46caab59753d7753dfd596064410610598b0170d4ca27);
    e, v := SquareTimes(P256, B256, e, v, 0xd7207c0d84f54c1ec5545501c706f50b7edb70b23fa7213be1e0e57aa79a3960);
    e, v := SquareTimes(P256, B256, e, v, 0xc29d756bf4af3bd10d26d9152b86f088db37fac101d02800a4b51c36e8ef2a29);
    e, v := Square(P256, B256, e, v, 0x8c5ff4782b016407eba716ca8c43c35df2003a1c1be2d3067de3b9d67b67010e);
    e, v := SquareTimes(P256, B256, e, v, 0x9edc4db2173b9256dda99311cb7e987f93377a757c0837d48762690025f2de68);
    e, v := SquareTimes(P256, B256, e, v, 0xdd706de015f301b5c40ddf70f8aa1baa0bcc7fb2b13f38770a51cc05a60e039b);
    e, v := Square(P256, B256, e, v, 0x981a54212277741d6b970ae3f0804974255733ba7e2f58995e2bd9e4ce6046c5);
    e, v := SquareTimes(P256, B256, e, v, 0x6c1e2b8f0eb24dcd82b27e71af372707c36eb9df972f9681d96d3efa2171966);
    e, v := SquareTimes(P256, B256, e, v, 0x5bac7aea0d184c2a12ee97dec427fdd9491fb4c1124e4f866df127d8b0a997de);
    e, v := Square(P256, B256, e, v, 0x584add1948d091acf95c138bf7509f40bd0c610dd7043ef222633777f977e05c);
    e, v := SquareTimes(P256, B256, e, v, 0xfd221e38a4b772d66a223381843ade5a2e4a457cf2143a8af6531febff662c7d);
    e, v := SquareTimes(P256, B256, e, v, 0xdf8f087b8dc68573904f4ec00b6066a96efd3de7119d70a253dd451a2b356fdd);
    e, v := Square(P256, B256, e, v, 0xdadb57f718086f6fbc61d8860abdfb750792b97dd8b935271d58b5e48f30e1a5);
    e, v := SquareTimes(P256, B256, e, v, 0xbca07a3ca081f9190a85e2066335ec5e318c9d2ab8ae62451a2519e766ea8d06);
    e, v := SquareTimes(P256, B256, e, v, 0xc724918882a5325152a07759db29d18b7bca3319274a4c60a069fab00e67b554);
    e, v := SquareTimes(P256, B256, e, v, 0x5c3e480d479d2511e1995014dbe228d2031822d63a1de4be55ea540eb9b6677e);
    e, v := SquareTimes(P256, B256, e, v, 0x59f77a3ee7c948b96410368949ab20662ddff4b21f2c172e82c80a2ad9e184f3);
    e, v := Square(P256, B256, e, v, 0xd75af310b424cdd3ea3da63b8d7755db9db425e31d652902c0ec52d8774f001a);
    e, v := Square(P256, B256, e, v, 0xc43ba8612e6ab09327512f184967e1f1a2b1332de7203cbf79d85341a397bb6a);
    e, v := Square(P256, B256, e, v, 0xe0fdef8e4a5aba451f4c60a7c266dd9a59cca9bf5cedf1a6cc9306944e7a92d8);
    e, v := Square(P256, B256, e, v, 0x9ce0d432118600e1536c79266977a22feec7cc8dae1ace63765084b2a1c60b30);
    e, v := Square(P256, B256, e, v, 0x2d6ef39a362b92a235e24fb7c5f035f0f951ff11e01e0e96457a955b09d5809c);
    e, v := Square(P256, B256, e, v, 0xf44e04104aaa16014d0c1c02946e4db0bbd1430d960d2505b14c4d644210a4c9);
    e, v := Square(P256, B256, e, v, 0xca1e20ca225e6d1474c0e5b218f48c7ca2ae35e77015959c2dd06ad03547f2e0);
    e, v := Square(P256, B256, e, v, 0x24ca7edf1916fedbd42e8245f18b5264f4262dce9ed4102763c06a64d23eded0);
  }

  /** The order of the element for P256. */
  lemma P256Order()
    ensures Cong(Power(B256, Q160), 0x1, P256)
  {
    hide Cong, Power;
    P256OrderPart2();
    var e: nat, v := 0x124da24edc83f5c27fbb4bef1db6f00, 0x24ca7edf1916fedbd42e8245f18b5264f4262dce9ed4102763c06a64d23eded0;
    e, v := Square(P256, B256, e, v, 0xd4979897a7f37384a7b143144589743020ff0fd423fcfef110e6f5b7d270688e);
    e, v := SquareTimes(P256, B256, e, v, 0xd2807e4a086316d192f1d3ed852ebecc88f546ff1a10b4e349cb445893666853);
    e, v := Square(P256, B256, e, v, 0x6822d866e8f7723db7796632d52ceb854ecba2112b582aadce15ba1bd2fae622);
    e, v := SquareTimes(P256, B256, e, v, 0x59030a17bbb6fa2fdf776f0689e2b578b29463e162965d6db4445a12fb82e39f);
    e, v := Square(P256, B256, e, v, 0xbe2142a377d16d1dcd40ebbf43b480f22ced802d5500cd0652a78ebc8b849325);
    e, v := SquareTimes(P256, B256, e, v, 0x75fd2cde5f96b293ea5a1016047fcb0bb1cb7ea83e3ef70c54331d81245468d7);
    e, v := Square(P256, B256, e, v, 0x228fb229af9f5c030e31c5eef9ab451b502f206250d894fdb5020806ccfa888d);
    e, v := Square(P256, B256, e, v, 0x76d234365f5c29d7b02bd8ae59dfcbe4d2204d7b0a625b719676d242ccc519d4);
    e, v := SquareTimes(P256, B256, e, v, 0x9eed3d2a76328f8bc97c14844285ec3c300eca9558977c098e60b9dbf6a66430);
    e, v := SquareTimes(P256, B256, e, v, 0xd2cecef9af420ae5cec167a82d91c8de8843ba554bd2b787c94a4c93e5ddbd43);
    e, v := SquareTimes(P256, B256, e, v, 0x3e3d3e0658b41f120dd03a62fd2b49a32814663a161dcb76fd002d7d0b1d13d9);
    e, v := Square(P256, B256, e, v, 0x3bb4225da977495a237b5ef9b65789f4861f1bf369c8055d29258b922eb407e7);
    e, v := SquareTimes(P256, B256, e, v, 0x9a52f1283e0514f2fc91194da289c9510d053a7e0b5a13fd64523ebc32b8923);
    e, v := SquareTimes(P256, B256, e, v, 0x98f18b4aa961063d204d8a8aa011cf38b5f6081da31f819a683746719f43d37a);
    e, v := Square(P256, B256, e, v, 0x7d7eaf3846540ab3f6c42ecaa3c7253515bf8af9311822a341da6cdec4d36335);
    e, v := SquareTimes(P256, B256, e, v, 0xc47cb756a46391621c1259595e44df974dd872e130e7851109c990811539540f);
    e, v := Square(P256, B256, e, v, 0x70bc1db5d9ec5bf4a527aeeaab7996881437261f7181a7eb8c5ad567aad31f98);
    e, v := Square(P256, B256, e, v, 0x791ad97f48093b2e3dfd0ca3b9f430ff8c0bf7951a07d3a3d3bb22a318da0e1a);
    e, v := SquareTimes(P256, B256, e, v, 0x42d1499609594e445d8c62ad7a267f1613318efe64609320a3408923469ffa87);
    e, v := Square(P256, B256, e, v, 0x96ddc9f78ae82394466d8c0e5765a3843b23186e59fe952b7721d3021ebdb37);
    e, v := SquareTimes(P256, B256, e, v, 0x5ff1e8d0fb4dae3fb0dcad3b5e2ec233783ffe68ade656a324a434fb1ea1fb50);
    e, v := Square(P256, B256, e, v, 0xb7a7035f63fb8e64a0cacc4d51558059b053e5469134b1da5d93e942e4683e91);
    e, v := SquareTimes(P256, B256, e, v, 0xf8e46fe3972a911ab384e4b8b39c3ad1b7175d03e3d208c5e4314f82c3b83a90);
    e, v := Square(P256, B256, e, v, 0x453bf1b0082a073d4ef3a5a18d54c38b8f1587248e1ffa6de733ce83c76cf511);
    e, v := Square(P256, B256, e, v, 0x6c103b9507a9cc828e527bd987f4a2017fbd1b0d27a0054cdcc0026c82b2506);
    e, v := Square(P256, B256, e, v, 0xfd6d48feaed3ab490a33ce4af04aad11770c7ad3c8b0803da7ab907b480fb3d);
    e, v := SquareTimes(P256, B256, e, v, 0xbb92cb64ddd486e8e13df6c43008a6310f2801403c5dbb139daf97a99a67028a);
    e, v := Square(P256, B256, e, v, 0x260ab4220b7b4e4031fa106e915493b8348aebeac3ff56d876a8a9b043e99083);
    e, v := SquareTimes(P256, B256, e, v, 0x78d78246432c32dabbfa7ad41a4c3ad86310457d459d17909a82da7a0be33ed0);
    e, v := Square(P256, B256, e, v, 0x71db3176eb360bde2cb1c3b71c3b17073781abe6b04143a32fca6b60e577da1c);
    e, v := SquareTimes(P256, B256, e, v, 0x2c0dbbfd0bdc828eae74b789bb9cd1c94e9c874afe59fe229db0de45b0ed0abd);
    e, v := Square(P256, B256, e, v, 0x1bb90cc697305a65af08f2bc1b811d40418d84dc65602e9618007ebe008bfe9f);
    e, v := Square(P256, B256, e, v, 0xd9cc08c1356ae237474bfae6e06e023b3bde180600e7497fe351f22515842b61);
    e, v := Square(P256, B256, e, v, 0xaaa38d4aece36dc67b4d668da916d11a001bcbfe59d6266712a88064475a76ed);
    e, v := Square(P256, B256, e, v, 0xdbb78c601595c16a3ec7e28b58bb0efd944b7fba7929f05b8acaa34dd5985f07);
    e, v := SquareTimes(P256, B256, e, v, 0x510e95326e8e67d073b7d7c5bf1ec41b8d8087b99ccdcd8ef80e0303d43bd8dc);
    e, v := Square(P256, B256, e, v, 0x812469e1b68da15c46fd080044d228ed0296e50de83e1fbe2c75ce4f51a50ff);
    e, v := Square(P256, B256, e, v, 0xa6e8071f940f884e54a7a018a9b2488fc4bf3105a4a9674afb35dc9598cd5bfb);
    e, v := SquareTimes(P256, B256, e, v, 0x1);
  }

  lemma P256Prime()
    ensures Prime(P256)
  {
    hide Cong, Power, Prime, Apart;
    Q160Prime();
    P256Order();
    var _, _ := FirstBit(P256, B256);
    ApartBy(P256, B256, 1, B256, 0x4f5b418eca523fb75369a24772ba6e620c00261d7f768df08143595c559af3ce);
    Criterion(P256, B256, Q160, 1);
  }

  lemma Q160OrderPart0()
    ensures Cong(Power(B160, 0x115aacdae40), 0x481fcd9ffc6482d6bcf4b456a9e121d924a9640d, Q160)
  {
    hide Cong, Power;
    var e, v := FirstBit(Q160, B160);
    e, v := Square(Q160, B160, e, v, 0x716368c5f08bdf6c4943d9ea39b018559b764a64);
    e, v := Square(Q160, B160, e, v, 0x6ab32842e8421fff279f0be4d07f42e32b4acb03);
    e, v := Square(Q160, B160, e, v, 0x4c80de5574152e7ca5b9f82e5533ff723d93fd2a);
    e, v := SquareTimes(Q160, B160, e, v, 0x375bdf1039b31d96d440f07c543a79530bce32ae);
    e, v := Square(Q160, B160, e, v, 0x3045d9bf8b8266961c7236aeaa8042b2cd320efe);
    e, v := SquareTimes(Q160, B160, e, v, 0x20858902b4c5f9b5b72072b2305dad755e30911b);
    e, v := Square(Q160, B160, e, v, 0x70483f8dfaf875e2771b5d5c41c2f5a08daac07c);
    e, v := SquareTimes(Q160, B160, e, v, 0x1f13f69411b88372f7534f4676e60d2ba4e9c740);
    e, v := SquareTimes(Q160, B160, e, v, 0x749a0c98ecfbbf2c692e17d8cbe57473d9bdf024);
    e, v := Square(Q160, B160, e, v, 0x25a1b534cc520de2dd76efd1ae6f152df54974c1);
    e, v := SquareTimes(Q160, B160, e, v, 0x27d7d500a81bff0dcdf4105012396383e4f4fe8f);
    e, v := Square(Q160, B160, e, v, 0xbcf0cb0af1aa9d6f7695ac2d22ddff69c729b91);
    e, v := SquareTimes(Q160, B160, e, v, 0x35a484198144c5f52614610266ddcda1bffc53e3);
    e, v := Square(Q160, B160, e, v, 0x93554632a72a15c586ddb55c20502a5bcb36455);
    e, v := SquareTimes(Q160, B160, e, v, 0x99e37b24122fd35adc1752ce79446601e50b59);
    e, v := Square(Q160, B160, e, v, 0x2be0c2ebe1ee77c6151cd385aab65f79e72fc796);
    e, v := SquareTimes(Q160, B160, e, v, 0x3dd0e0023af003206819acc3ab3c53e66376ae98);
    e, v := SquareTimes(Q160, B160, e, v, 0x3e54a23f06ad5e6698eed095e17bf12d6c7cf8bc);
    e, v := Square(Q160, B160, e, v, 0x868d3a8f713c5ef2da912b7163d15a8a0f850630);
    e, v := Square(Q160, B160, e, v, 0x30dde5638507a052d7ab803f4a04ac164253782e);
    e, v := SquareTimes(Q160, B160, e, v, 0x62deed42c42f9332dce46eee14c9dd7664e3a98e);
    e, v := SquareTimes(Q160, B160, e, v, 0x924a7806dc0cdd10a6496c0f4993af033943b9c8);
    e, v := Square(Q160, B160, e, v, 0x8ac6af38e4b788a8b17ba3e658061d05b8b5e666);
    e, v := SquareTimes(Q160, B160, e, v, 0x82e43bf9bad338697cfaca3c4e1d75a460461243);
    e, v := SquareTimes(Q160, B160, e, v, 0x3698856517d819f3c4696517c8c53c5494b6132e);
    e, v := Square(Q160, B160, e, v, 0x2ff3e5f998c331b2311879f9f7ddab4930db3a55);
    e, v := SquareTimes(Q160, B160, e, v, 0x9102c1d86ea19c9ec7e237a39f7c3f1da1cc8e21);
    e, v := Square(Q160, B160, e, v, 0x6afb5d4f70571b685878b54928bc1d364a4efb21);
    e, v := SquareTimes(Q160, B160, e, v, 0x6482fcad59b482543add58d123cd79f10200ddaf);
    e, v := SquareTimes(Q160, B160, e, v, 0x811fb9d9ec1c878963c4b70ba83dfac874793a9d);
    e, v := SquareTimes(Q160, B160, e, v, 0x8331b22c010952ca24b949e3ffe0812a6aca4179);
    e, v := Square(Q160, B160, e, v, 0x517ef1348e143bc13bc27cf74d76d7515ed10093);
    e, v := Square(Q160, B160, e, v, 0x2982cff87dc61b9b8a243f8da3afaa81081679ac);
    e, v := SquareTimes(Q160, B160, e, v, 0x21d2ed2f8d03d83b8baf5624dc3e68d252d69634);
    e, v := Square(Q160, B160, e, v, 0x123eab7e9fa8b5e85f728a494179895818667be3);
    e, v := Square(Q160, B160, e, v, 0x1eb55fe4917d64f80180ff3c6cbfe7fad479e040);
    e, v := Square(Q160, B160, e, v, 0x2e8897e00232ec27228a43cb4dd30d9a662048fa);
    e, v := Square(Q160, B160, e, v, 0x821bc9d182c6ae8a990fabae863e6061595fcb40);
    e, v := Square(Q160, B160, e, v, 0x6d6a9d0dab22a98f5ba36a157916ecb59358941f);
    e, v := Square(Q160, B160, e, v, 0x481fcd9ffc6482d6bcf4b456a9e121d924a9640d);
  }

  lemma Q160OrderPart1()
    ensures Cong(Power(B160, 0x115aacdae40b5700791bc), 0x8624c5686a04ec5c792fc617cfb2103340b3b790, Q160)
  {
    hide Cong, Power;
    Q160OrderPart0();
    var e: nat, v := 0x115aacdae40, 0x481fcd9ffc6482d6bcf4b456a9e121d924a9640d;
    e, v := SquareTimes(Q160, B160, e, v, 0x29efbf7633ad2192d398024ff566cd1b9ebb42bf);
    e, v := Square(Q160, B160, e, v, 0x7ccf231b8662da7af35ac9dec811d438474a49);
    e, v := SquareTimes(Q160, B160, e, v, 0x45820cc6debc8148709c241a87778b38c876b7b8);
    e, v := SquareTimes(Q160, B160, e, v, 0x668c7f8c3c3c29232540a77719a51e52735249f4);
    e, v := Square(Q160, B160, e, v, 0x59c7b9904edf1d2712fe97c7e836e5ec6f57bc9);
    e, v := SquareTimes(Q160, B160, e, v, 0x1fc099957732a7cec78afd32eeb7ef0218360fdf);
    e, v := Square(Q160, B160, e, v, 0x75c146ae0b75330c9d92297cb920fd313f01fda4);
    e, v := SquareTimes(Q160, B160, e, v, 0x59e934f920642790ed3a8e67c50d190209f251a7);
    e, v := Square(Q160, B160, e, v, 0x73a57dff9348cf75dd956d21de00b11b36bd5a49);
    e, v := SquareTimes(Q160, B160, e, v, 0x589401711ddf683e3815bd7a2dbee609c26d867e);
    e, v := SquareTimes(Q160, B160, e, v, 0x4970ae5df68c4f0bf076d67059b2a59ac4cb550f);
    e, v := SquareTimes(Q160, B160, e, v, 0x571ecd38f19e6b29a7063ea387de9bcce0cc55c6);
    e, v := Square(Q160, B160, e, v, 0x7ad7c6eff20a3d6efecb122cea9d87e3ad1fff5b);
    e, v := Square(Q160, B160, e, v, 0x6e8983be6f8b691246a4c9be0c190a827236bd5b);
    e, v := Square(Q160, B160, e, v, 0x22eef4c066fb6b3517fbe6bad55acac2e0c1e7dd);
    e, v := Square(Q160, B160, e, v, 0x3cba5b66f66b3f793bba23a8be5a1b47214bbb1c);
    e, v := Square(Q160, B160, e, v, 0x7f98602edacaacec3cf8b479a90fb7e36c74bb6b);
    e, v := Square(Q160, B160, e, v, 0x3ba8b862270209b191ac11ab05388ea2c53a1bd7);
    e, v := Square(Q160, B160, e, v, 0x222963d76eda0ad9ae493863b277a8fc372d17d9);
    e, v := Square(Q160, B160, e, v, 0x5119851e343c6ed40eb034f7c7e80ae1ffde53e4);
    e, v := Square(Q160, B160, e, v, 0x23932473d60d24c7d2fd94c28acdcb55c325a989);
    e, v := SquareTimes(Q160, B160, e, v, 0x49341f226084557c8b6055ab36ed99fab58c4fe3);
    e, v := SquareTimes(Q160, B160, e, v, 0xfdf52541623ee92d39c7dbfb4c5a81739f8c297);
    e, v := SquareTimes(Q160, B160, e, v, 0x8c772e921106c12291b55a0ed4a791cffe7faacb);
    e, v := SquareTimes(Q160, B160, e, v, 0x4d9c8fa695b7224f4c72988c77f891f732ba456d);
    e, v := Square(Q160, B160, e, v, 0x5dc5bb5a29b84a2b4826ceb9b657c7cf29e81ff0);
    e, v := Square(Q160, B160, e, v, 0x5a7485917d3938f93bf03c172ac52e27d8ff3acc);
    e, v := SquareTimes(Q160, B160, e, v, 0x4e2ea65a06f2e8bb73c9ee6f00701b5b0a0fc66c);
    e, v := Square(Q160, B160, e, v, 0x3d249dc0e7ab781136993d49d4cedece1513ebb);
    e, v := Square(Q160, B160, e, v, 0x43261df785b8e84b3af7aa3fc3e53d022d06daec);
    e, v := Square(Q160, B160, e, v, 0xa3700254bc2302023b0ee5b72cfe3fa2c05a935);
    e, v := SquareTimes(Q160, B160, e, v, 0x9078e5ccc9ecd85483f472b9278e270a8f9896e1);
    e, v := SquareTimes(Q160, B160, e, v, 0x8118fed6ae80bb618d8c65ba5ff317be319aa317);
    e, v := Square(Q160, B160, e, v, 0x6d50d8d30f5abc9b6adc843469484544464de400);
    e, v := SquareTimes(Q160, B160, e, v, 0x5f4943b9999a2e44121b782322eb3d5297d848b2);
    e, v := SquareTimes(Q160, B160, e, v, 0x5a45ef4b7370c26d8053bd60e72518634161a6e2);
    e, v := SquareTimes(Q160, B160, e, v, 0x88cabdeb487eb941bb2c0297a5319309e9d7a3b3);
    e, v := SquareTimes(Q160, B160, e, v, 0xf5720145afe145e803d074cf36ca409a53bd9db);
    e, v := Square(Q160, B160, e, v, 0xdb7ae4158583a120c056020a1db7170304822bc);
    e, v := Square(Q160, B160, e, v, 0x8624c5686a04ec5c792fc617cfb2103340b3b790);
  }

  lemma Q160OrderPart2()
    ensures Cong(Power(B160, 0x115aacdae40b5700791bc70c6f9c62a), 0x6612916104a493450a084aedbd746b56a189e009, Q160)
  {
    hide Cong, Power;
    Q160OrderPart1();
    var e: nat, v := 0x115aacdae40b5700791bc, 0x8624c5686a04ec5c792fc617cfb2103340b3b790;
    e, v := Square(Q160, B160, e, v, 0x69e11d0dad988cae6957c20b7d6cf32432b187b5);
    e, v := SquareTimes(Q160, B160, e, v, 0x24745635b5bf15f57251ef1aed40e71f75a53bc3);
    e, v := SquareTimes(Q160, B160, e, v, 0x297dd81f6b487668f8fc08d13e65c19f49b30b76);
    e, v := SquareTimes(Q160, B160, e, v, 0x4b1912cc7ab91bf64af11d01a581fffb79aba969);
    e, v := Square(Q160, B160, e, v, 0x654ddc4f25cc539ad3baedf03a95ce415c0a8a89);
    e, v := Square(Q160, B160, e, v, 0x86e4ea559671a2e86ebecb9166e3cc97815340e9);
    e, v := Square(Q160, B160, e, v, 0x265ea01336e221626fd28adaf62c189f7de388f6);
    e, v := Square(Q160, B160, e, v, 0x1d04d7e4e627a177ac8971d07cc6874d38d9e38d);
    e, v := SquareTimes(Q160, B160, e, v, 0x6642f1f2223983a2ad2aa984191d06b0b38b66df);
    e, v := SquareTimes(Q160, B160, e, v, 0x1890e284edc28c2d4f2f6310821cac95d208f2a0);
    e, v := Square(Q160, B160, e, v, 0x7c2dfeed4a5543fbe001361a7d0c28f24f09898e);
    e, v := Square(Q160, B160, e, v, 0x4ac2800caaa56d90f29c60b340dc7b0e4b266ffc);
    e, v := Square(Q160, B160, e, v, 0x1a826642686e354c15e728648a69b663da8857e4);
    e, v := SquareTimes(Q160, B160, e, v, 0x8642f4d4880a1e936c69b30a4279e7ad4983d672);
    e, v := SquareTimes(Q160, B160, e, v, 0x1139f245c78773da71443f3efb7a05c9cc8e367a);
    e, v := Square(Q160, B160, e, v, 0x696c0d3b5e2d8de4c84ebb2963ab7744ecf82283);
    e, v := SquareTimes(Q160, B160, e, v, 0x58482f77c94d9329f13c74951a2d0f0d4b918e1c);
    e, v := SquareTimes(Q160, B160, e, v, 0x8e278a347fc1c6555055512e2d63b467e101934a);
    e, v := SquareTimes(Q160, B160, e, v, 0x41bd6250464be1c6ded733ea2d39ec16b2ce85b5);
    e, v := SquareTimes(Q160, B160, e, v, 0x5674e05f7ba6e986c2d0f41a837dd38085e3bf50);
    e, v := SquareTimes(Q160, B160, e, v, 0x3425d3afd34e2b1e7855fb20634a0d10c7673829);
    e, v := Square(Q160, B160, e, v, 0x1f65e8c3862098ee592f5794b97d0dd8a5979e82);
    e, v := Square(Q160, B160, e, v, 0x7ae656ce479a7958c5f52e98e34e462463df4e85);
    e, v := SquareTimes(Q160, B160, e, v, 0x3684d48d5c8de9512d41b4a60a981f83ebe66f14);
    e, v := SquareTimes(Q160, B160, e, v, 0x575e6efe6475727871c4d01bc0fc254b559e8fb1);
    e, v := SquareTimes(Q160, B160, e, v, 0xfb41bf36754fa2a3cebd9a80d5348d28203f671);
    e, v := Square(Q160, B160, e, v, 0x229f02d84f1d9e32883d5e8bc66209d14df74960);
    e, v := Square(Q160, B160, e, v, 0x6d587af760960456b4a583938ee75d5abc652f41);
    e, v := Square(Q160, B160, e, v, 0x7e4b05a6f84682f6da1e2781e486797306518d60);
    e, v := SquareTimes(Q160, B160, e, v, 0x175c855187c468982d05a0c275bb31205c5fd233);
    e, v := SquareTimes(Q160, B160, e, v, 0x4189f9ab02a482b112b62c1887bb1dfbea488ea7);
    e, v := Square(Q160, B160, e, v, 0x18d45a1731129f65ba1440806cb501a42be5026d);
    e, v := Square(Q160, B160, e, v, 0x514e37c031f5040e393efd9d1a716514884bb945);
    e, v := Square(Q160, B160, e, v, 0x5d4252bae27cb4ff9667ecfb110df8598ae7cf09);
    e, v := SquareTimes(Q160, B160, e, v, 0x112691762a072bccdfa9630a0c28c8654e2072b0);
    e, v := Square(Q160, B160, e, v, 0x74d6708a2478355196b1ccf358e1eee8777f1d2d);
    e, v := SquareTimes(Q160, B160, e, v, 0x5376551079549132421e9a8de5c55711f77a8231);
    e, v := Square(Q160, B160, e, v, 0x8169190373e0e7b8c684a646eb7314a628e25f3b);
    e, v := SquareTimes(Q160, B160, e, v, 0x42c1f61134c7a16736e4655ef35ab22d1b48a987);
    e, v := Square(Q160, B160, e, v, 0x6612916104a493450a084aedbd746b56a189e009);
  }

  /** The order of the element for Q160. */
  lemma Q160Order()
    ensures Cong(Power(B160, Q150), 0x1, Q160)
  {
    hide Cong, Power;
    Q160OrderPart2();
    var e: nat, v := 0x115aacdae40b5700791bc70c6f9c62a, 0x6612916104a493450a084aedbd746b56a189e009;
    e, v := Square(Q160, B160, e, v, 0x45a2fb0b7982a884c9039dc4e90cbf7cfd7748f6);
    e, v := Square(Q160, B160, e, v, 0x2961fbd297ad3d84fa6aef7ab92519e9158ffa82);
    e, v := Square(Q160, B160, e, v, 0x53802be4b224866dfba1437f06f18b44889459c7);
    e, v := Square(Q160, B160, e, v, 0x3ca9352df8b5a46a909ef7dd3fb1e9bd2247f331);
    e, v := SquareTimes(Q160, B160, e, v, 0x6fd948ba6c1c16b15d1e89ee3fd14598309872bd);
    e, v := Square(Q160, B160, e, v, 0x5c4e9399ada21e5fd1df0edf97562a80895cf883);
    e, v := Square(Q160, B160, e, v, 0x51f456615810c05070f22065efc0b0a6a6cbb09f);
    e, v := Square(Q160, B160, e, v, 0x80aa95639e230fa3df7f7bbd3ae65a9d395a4fd);
    e, v := Square(Q160, B160, e, v, 0x4789190540db6b7c4a479422c377b8823b81a660);
    e, v := SquareTimes(Q160, B160, e, v, 0x28d848cc37aad6b1c97a538b67ef037be60b2916);
    e, v := SquareTimes(Q160, B160, e, v, 0x200cc452b37ef752204f712cce8ac213fdeea556);
    e, v := SquareTimes(Q160, B160, e, v, 0x6a1f7722bf1424ff76bb746d352614d8e88c37b9);
    e, v := Square(Q160, B160, e, v, 0x707d2f85d5ffa65fe7b626de4e0b515731c2171);
    e, v := SquareTimes(Q160, B160, e, v, 0x5da824ad16c3dbbbf609e2aba59b267ce14894c3);
    e, v := SquareTimes(Q160, B160, e, v, 0x7b4d28fba277d724b0a9071a60ba724506ce830a);
    e, v := Square(Q160, B160, e, v, 0xf8fc99a21adaba3e4a036faaa7517f79196d1e4);
    e, v := SquareTimes(Q160, B160, e, v, 0x1ee7c6bdf5a8d6a5dd470d2240aab53d2f7beaaf);
    e, v := Square(Q160, B160, e, v, 0x4899866e677c750505e5df32f4868884d949acc4);
    e, v := SquareTimes(Q160, B160, e, v, 0x34eef8bf46de469c3289a0ee28f5a4445040fc01);
    e, v := Square(Q160, B160, e, v, 0xf7dd14ba51f50a3c0bc351c88ee243c45be388);
    e, v := SquareTimes(Q160, B160, e, v, 0x5e717b4ee5578dc772c5014336d95eed13f055ca);
    e, v := SquareTimes(Q160, B160, e, v, 0x66892f91b32341966dc147a93e7205b6283e8fd3);
    e, v := Square(Q160, B160, e, v, 0x159d61711fa013eda85b461250c7c208e484f80a);
    e, v := Square(Q160, B160, e, v, 0xa6e63c376fd96029af2accbb609fa7e0093775f);
    e, v := SquareTimes(Q160, B160, e, v, 0x35ce0d92b6feb12125acbf9def4b23050b73468a);
    e, v := Square(Q160, B160, e, v, 0x8601711f4e2bbf9f9be50a04a025b4a32c47d696);
    e, v := SquareTimes(Q160, B160, e, v, 0x22eb4c53c092d37cd912820dbd3ae28a55e81a1c);
    e, v := SquareTimes(Q160, B160, e, v, 0x6a22a91106d82924f6bf7d635238bbcff02667ae);
    e, v := SquareTimes(Q160, B160, e, v, 0x1);
  }

  lemma Q160Prime()
    ensures Prime(Q160)
  {
    hide Cong, Power, Prime, Apart;
    Q150Prime();
    Q160Order();
    var _, _ := FirstBit(Q160, B160);
    ApartBy(Q160, B160, 1, B160, 0x915a3c97e1f064769fa3c1c13714e947fde75b95);
    Criterion(Q160, B160, Q150, 1);
  }

  lemma Q150FirstPart0()
    ensures Cong(Power(B150, 0x1489c2f3b99), 0x6630dbc92b8e1b61a426e6cdf4dbba897431f, Q150)
  {
    hide Cong, Power;
    var e, v := FirstBit(Q150, B150);
    e, v := Square(Q150, B150, e, v, 0x1c08946dc19997275e62e7ab6fd315b48b07a7);
    e, v := SquareTimes(Q150, B150, e, v, 0x10d3fd2ea6ff7831a67f20d1cef80cb312c90d);
    e, v := Square(Q150, B150, e, v, 0x4e30ac3341391f28b5422ba660d19017576a7);
    e, v := Square(Q150, B150, e, v, 0x118d2ba40022a8f63da5689cd4fd126ca6353e);
    e, v := SquareTimes(Q150, B150, e, v, 0x7fd789afdae2bdbf6f7426c6c9eea63589806);
    e, v := Square(Q150, B150, e, v, 0x1018b310c06595450a19d76bd9b157dba7a0b);
    e, v := Square(Q150, B150, e, v, 0xc0cf045c3b539444db3088c9ec8741a4d512c);
    e, v := Square(Q150, B150, e, v, 0x1b50dd4eda940ceafd59074d0e8a4f5cec2ce6);
    e, v := SquareTimes(Q150, B150, e, v, 0x1c39849ef6edcb0d9c4df7e59ade4f319279e8);
    e, v := Square(Q150, B150, e, v, 0x1e86da8dc3409a60b95092a9ae8efb765f4e7);
    e, v := Square(Q150, B150, e, v, 0xf8f884dc36c48f549b64703a8abeaadcaacf6);
    e, v := SquareTimes(Q150, B150, e, v, 0x188020e7fa07fd196ffdcde095a8376b0f26f3);
    e, v := SquareTimes(Q150, B150, e, v, 0x168e71c9cb4f01753532722c07e7464c424c43);
    e, v := SquareTimes(Q150, B150, e, v, 0x18b6f1f7df35a2bd97769f2ac17a959985671c);
    e, v := Square(Q150, B150, e, v, 0x1a5999cf360ddd37e74b88d214631a488832b9);
    e, v := Square(Q150, B150, e, v, 0x1a3e8c9c45cc1c0e17917b74366d9e7eece95e);
    e, v := Square(Q150, B150, e, v, 0x1d01ab48442316c6301915431f6258fc515811);
    e, v := Square(Q150, B150, e, v, 0xa08028051ac381d777b78263155d1d9fd6909);
    e, v := SquareTimes(Q150, B150, e, v, 0xc53fc4987d2809936e7f27dada5baf6c8dec0);
    e, v := Square(Q150, B150, e, v, 0x20a676253fc4c906b8419e280ecdfbcc00168f);
    e, v := SquareTimes(Q150, B150, e, v, 0x12210f70f8bf2e096ff58751ac3184fc2e1b2b);
    e, v := SquareTimes(Q150, B150, e, v, 0x147b893ea525c015333cd4269a82c02e35d546);
    e, v := SquareTimes(Q150, B150, e, v, 0x99a6d665dd6994459059c90a5d7224c815a6b);
    e, v := SquareTimes(Q150, B150, e, v, 0x7638efde79c1a499fa50c88b214d0c28c4453);
    e, v := Square(Q150, B150, e, v, 0x1a050d563a96224b7647ed7a32e5b1c404cf5c);
    e, v := Square(Q150, B150, e, v, 0x8f085d9b6936fb8ea5ec30806278dc122118b);
    e, v := SquareTimes(Q150, B150, e, v, 0x9e44b4b504ff06d10b165781c1d19bd20015f);
    e, v := SquareTimes(Q150, B150, e, v, 0x63adf0af35436a71441122e8744db9b0029f6);
    e, v := SquareTimes(Q150, B150, e, v, 0xa168f48c17a320b0ff5f36aa615f61e38a528);
    e, v := Square(Q150, B150, e, v, 0x1c667ddd9a8d5c1169c6993faa2a3d62bf4497);
    e, v := SquareTimes(Q150, B150, e, v, 0x2080ccebf480c70323a19353943f401185b6dd);
    e, v := SquareTimes(Q150, B150, e, v, 0x1f6a1c6c267110337101dbdade3bde6c6ae822);
    e, v := SquareTimes(Q150, B150, e, v, 0x1255283bc69ca6e0a8e18af9866f02d39be041);
    e, v := Square(Q150, B150, e, v, 0xb8e073cd17e5d8ec697f07f92fe965b178d29);
    e, v := Square(Q150, B150, e, v, 0xab18d85791b2644f44d569fd0268a75db8544);
    e, v := SquareTimes(Q150, B150, e, v, 0x1d229dd57ed1cabea62e6abec89600cc6c7888);
    e, v := SquareTimes(Q150, B150, e, v, 0x234b4b0bfff9e1a6246570a8b7a2b7f460f62);
    e, v := Square(Q150, B150, e, v, 0x1aa2ec7b345ed6c5184e040d167497b695932b);
    e, v := Square(Q150, B150, e, v, 0x180b86ca087d950d219d89867c4a3c544160de);
    e, v := SquareTimes(Q150, B150, e, v, 0x6630dbc92b8e1b61a426e6cdf4dbba897431f);
  }

  /** The element for Q150 to the one prime of its order. */
  lemma Q150First()
    ensures Cong(Power(B150, Q44), 0xac1f69987a98cd70795a5538e728fc5b374b2, Q150)
  {
    hide Cong, Power;
    Q150FirstPart0();
    var e: nat, v := 0x1489c2f3b99, 0x6630dbc92b8e1b61a426e6cdf4dbba897431f;
    e, v := SquareTimes(Q150, B150, e, v, 0x20f074dc1a22fef0719fe5a51bac1af047c278);
    e, v := SquareTimes(Q150, B150, e, v, 0x21da175be5acd38b1df2320cf65c0249c60f9a);
    e, v := SquareTimes(Q150, B150, e, v, 0xac1f69987a98cd70795a5538e728fc5b374b2);
  }

  lemma Q150SecondPart0()
    ensures Cong(Power(H150, 0x147657f1865), 0xa7426a066697ddfd05a84378ae4e2e2c9d27, Q150)
  {
    hide Cong, Power;
    var e, v := FirstBit(Q150, H150);
    e, v := Square(Q150, H150, e, v, 0x81be818209fb696ac209a42eec5f3870ae3b0);
    e, v := SquareTimes(Q150, H150, e, v, 0x1704a5ebbad0e51890d7405a72e71f4dd2f8fa);
    e, v := Square(Q150, H150, e, v, 0x11cc40adca75ff42f7a1b6f8d895a620b6a2c7);
    e, v := Square(Q150, H150, e, v, 0x5d55e7f8da168b200928bd65cf27aef2fdcc4);
    e, v := Square(Q150, H150, e, v, 0x11f993ab8450fec4ed6e9f7d6355f378bc518f);
    e, v := SquareTimes(Q150, H150, e, v, 0x17e4abcba963d26eb30d1b70f43c13e73a4422);
    e, v := SquareTimes(Q150, H150, e, v, 0x94a8d0f62f99d4fbe36956cb97facf4e43d7);
    e, v := SquareTimes(Q150, H150, e, v, 0xf2d16ee533074be6e36fb59fab93778ebd7c9);
    e, v := Square(Q150, H150, e, v, 0x671c35181856a6d65252d9e5b302c2296ba32);
    e, v := SquareTimes(Q150, H150, e, v, 0xad8bb0f678ec8e4a1ea7a576fff143c90edb1);
    e, v := SquareTimes(Q150, H150, e, v, 0x4f78a57b0a41fd256c396086d6fc6827cd9d2);
    e, v := Square(Q150, H150, e, v, 0xce702948a02878cf497b2764eba1964a84f6f);
    e, v := Square(Q150, H150, e, v, 0x1c049be6a7eecaad5bbe82da82129e31e60e5c);
    e, v := SquareTimes(Q150, H150, e, v, 0xba4307067d3372eb3d4485e9616dc44962c49);
    e, v := Square(Q150, H150, e, v, 0x4d79887f892047f45d5c667bced5d05bd166d);
    e, v := SquareTimes(Q150, H150, e, v, 0xede1730edcdf018d6ac537101860f17e446);
    e, v := Square(Q150, H150, e, v, 0x1e7b7d4a1aa9215e30fbbc09df5e3fc65e1dbf);
    e, v := SquareTimes(Q150, H150, e, v, 0x5926f2ee6c43bfe64ab3e49baf8e3083a16df);
    e, v := SquareTimes(Q150, H150, e, v, 0x124b09ae0de628908d291de9559a88c10c9fa3);
    e, v := SquareTimes(Q150, H150, e, v, 0x7aa447ea244287b706b2168456ffd553217d);
    e, v := SquareTimes(Q150, H150, e, v, 0x205721eb425d4d9799d585b635a3f0caf47cf);
    e, v := SquareTimes(Q150, H150, e, v, 0x33d12421a0dfcbec8c3a00806811a95a6ca56);
    e, v := SquareTimes(Q150, H150, e, v, 0x1ce01bc1be0b78f444675572ad7dcc95c9487d);
    e, v := SquareTimes(Q150, H150, e, v, 0x105f8c9c8f344a364eeb37085f35d60574cfdb);
    e, v := Square(Q150, H150, e, v, 0x1725c824c8e1a6879237ab0662707a6a5db862);
    e, v := Square(Q150, H150, e, v, 0x3c2bab6eb7aa7933dfeb4df557dba46bae156);
    e, v := Square(Q150, H150, e, v, 0xbb1af442a5bcfe76acde185f7f3485942d975);
    e, v := SquareTimes(Q150, H150, e, v, 0x51dd74134a1793a02a561c0bd3eeede30c218);
    e, v := SquareTimes(Q150, H150, e, v, 0xbd7fbb8dce9da197be5190dfcbfff6c76f3a4);
    e, v := Square(Q150, H150, e, v, 0x219074807c22ac22d0fde3b0fa34b6edadad0d);
    e, v := Square(Q150, H150, e, v, 0xd092b2bed262b3b6f4162ac70d1593c75d8c7);
    e, v := Square(Q150, H150, e, v, 0x1ae8e4a5499deef5da0defd455ce664af37dfc);
    e, v := Square(Q150, H150, e, v, 0x1440706cf9a6453577885c4dce491c6ba29273);
    e, v := SquareTimes(Q150, H150, e, v, 0x74b1cbb8b26086bae4867bac5da71775461c5);
    e, v := SquareTimes(Q150, H150, e, v, 0x33fdec163e38e4341ddb4eea82d6b44be926);
    e, v := Square(Q150, H150, e, v, 0x2120fd9fe5b20277d1ce88cd4e4c6adef3e5eb);
    e, v := Square(Q150, H150, e, v, 0x983e8b9af1ff142837dbb926ff32504da4c55);
    e, v := SquareTimes(Q150, H150, e, v, 0x4d1ef73c4cf96208969dad530c7bd90957899);
    e, v := Square(Q150, H150, e, v, 0x13371a982d6e5da15341e9af00580604ac4e63);
    e, v := SquareTimes(Q150, H150, e, v, 0xa7426a066697ddfd05a84378ae4e2e2c9d27);
  }

  /** That power to the other prime. */
  lemma Q150Second()
    ensures Cong(Power(H150, Q56), 0x1, Q150)
  {
    hide Cong, Power;
    Q150SecondPart0();
    var e: nat, v := 0x147657f1865, 0xa7426a066697ddfd05a84378ae4e2e2c9d27;
    e, v := SquareTimes(Q150, H150, e, v, 0x80bb243f173ec20ec08551cde7b07237bfb5e);
    e, v := Square(Q150, H150, e, v, 0x927b04b4ff15dc71448a66017bf0f644e2f2);
    e, v := Square(Q150, H150, e, v, 0x1b4e396ff133ee193fc495dd856c6da10a40a6);
    e, v := SquareTimes(Q150, H150, e, v, 0xadeb4d7ba0d6f2fa1dd29710b4e86f751f477);
    e, v := SquareTimes(Q150, H150, e, v, 0x125cb401fca8ea7dbe52ac2eb4d3cf6db7080b);
    e, v := SquareTimes(Q150, H150, e, v, 0x2a3e710b645dc170b61e921a15cf7a3a586ec);
    e, v := Square(Q150, H150, e, v, 0xc0d48926be040316f9326217f75dfb4b873ca);
    e, v := SquareTimes(Q150, H150, e, v, 0x531e3789cb4ac849ab243df42a0020b8556dc);
    e, v := Square(Q150, H150, e, v, 0x13d7484ddd8e55481a4611d54cb20b52a29673);
    e, v := SquareTimes(Q150, H150, e, v, 0x14ff588efeb4fb0a1ffed2d4f86cb9127b437d);
    e, v := Square(Q150, H150, e, v, 0x22a07f38e2979c34a7a04f69ebe809984b661b);
    e, v := SquareTimes(Q150, H150, e, v, 0x467183b32dfa8b0f748b5747d9e15eade582c);
    e, v := SquareTimes(Q150, H150, e, v, 0x10c8af04c8eaa6b92dd49f95c47b138a742259);
    e, v := SquareTimes(Q150, H150, e, v, 0x5967b6123a447e6f3147b30a76bee4ade7afe);
    e, v := SquareTimes(Q150, H150, e, v, 0x1);
  }

  lemma Q150OtherPart0()
    ensures Cong(Power(B150, 0x147657f1865), 0x144b36b8f7f7de6a0dc4f165a9dad00a116089, Q150)
  {
    hide Cong, Power;
    var e, v := FirstBit(Q150, B150);
    e, v := Square(Q150, B150, e, v, 0x1c08946dc19997275e62e7ab6fd315b48b07a7);
    e, v := SquareTimes(Q150, B150, e, v, 0x10d3fd2ea6ff7831a67f20d1cef80cb312c90d);
    e, v := Square(Q150, B150, e, v, 0x4e30ac3341391f28b5422ba660d19017576a7);
    e, v := Square(Q150, B150, e, v, 0x118d2ba40022a8f63da5689cd4fd126ca6353e);
    e, v := Square(Q150, B150, e, v, 0xddd673c8a47b4d3a4482caad4dc351092dc18);
    e, v := SquareTimes(Q150, B150, e, v, 0x20ee8833192934423ec4ed4dcb71e812717868);
    e, v := SquareTimes(Q150, B150, e, v, 0x1f34cda3a303d17d0ba54aae8c64d1d57e45e1);
    e, v := SquareTimes(Q150, B150, e, v, 0x1bbe4347445e18b4cbd687c1e6f1263424f6b5);
    e, v := Square(Q150, B150, e, v, 0x193a302c3fa67f2f6637360768fc7335c6c4dc);
    e, v := SquareTimes(Q150, B150, e, v, 0x207e111e899c2b5c042063d11d7d0ab60e0a5b);
    e, v := SquareTimes(Q150, B150, e, v, 0x20eb76b502afdc3e0ea2b101baec52a6d3e15);
    e, v := Square(Q150, B150, e, v, 0x18b6b0c73d64db3f202308e3459ede60990c18);
    e, v := Square(Q150, B150, e, v, 0x107ea90ebb5e766f00d493854b998b458f5807);
    e, v := SquareTimes(Q150, B150, e, v, 0x15f3350ce63bc61d443aed11437eed317be228);
    e, v := Square(Q150, B150, e, v, 0x3c3e8c122eba8b064b9dfba903d7b3675c794);
    e, v := SquareTimes(Q150, B150, e, v, 0x17ccc2ecebf75dc15142a187b21e20a5e7662d);
    e, v := Square(Q150, B150, e, v, 0x205b244b9c02deefdf467185ed08d9306eb5fa);
    e, v := SquareTimes(Q150, B150, e, v, 0x1a74c4341dd268259b808b5e005719f07008f6);
    e, v := SquareTimes(Q150, B150, e, v, 0x1f224c6149ce683cc3f661dc16ed8819c1db7b);
    e, v := SquareTimes(Q150, B150, e, v, 0xb2dadc9799ff89d66c89cd16e13845cd5661e);
    e, v := SquareTimes(Q150, B150, e, v, 0xf9e62eedecd79f063b0e4e80994353388d19e);
    e, v := SquareTimes(Q150, B150, e, v, 0x80d68b4da5779af3f60c0935e16f138943c30);
    e, v := SquareTimes(Q150, B150, e, v, 0x1bead60c775a7bb33db0883b2eb0862926a31a);
    e, v := SquareTimes(Q150, B150, e, v, 0x5384390249343199ddf44567463f211231492);
    e, v := Square(Q150, B150, e, v, 0x3c622a4a3db2b0c75630fa512d30f494d2294);
    e, v := Square(Q150, B150, e, v, 0x1d44a526a3deabc1db2f34a4bef04cda4cfe9d);
    e, v := Square(Q150, B150, e, v, 0x2e27b73fd66952855c42b014e788aa648c02b);
    e, v := SquareTimes(Q150, B150, e, v, 0x132515e5891f00536e2bd554343dac52fa0d05);
    e, v := SquareTimes(Q150, B150, e, v, 0x67d83104e9f0f7ed6bf3fd6147ed0ed6d283d);
    e, v := Square(Q150, B150, e, v, 0x200559367eba49437fbcd90cf1335cbe1758f0);
    e, v := Square(Q150, B150, e, v, 0xd62f78be36da542d85e09249d49c912ba46b9);
    e, v := Square(Q150, B150, e, v, 0x14d57d9c5ce206206682bd6e54e0292a11b7ef);
    e, v := Square(Q150, B150, e, v, 0x21a35d3f61c0dda04627bb553fa3f1083c9316);
    e, v := SquareTimes(Q150, B150, e, v, 0xb544c07cd03997d4f06bad05cfc14b21dc762);
    e, v := SquareTimes(Q150, B150, e, v, 0x15ff5c89f0e8bbc6b63c05d07c388ef5865f86);
    e, v := Square(Q150, B150, e, v, 0x685756a93796153fda03d5e36e0d63a8b16d0);
    e, v := Square(Q150, B150, e, v, 0xaf582bb83f757428e7871ce08c702192702dd);
    e, v := SquareTimes(Q150, B150, e, v, 0xd56257493b7b5a4663f2e641c51daaa39218c);
    e, v := Square(Q150, B150, e, v, 0x1a50feef975234938960bacc4b8f62eb3d0b91);
    e, v := SquareTimes(Q150, B150, e, v, 0x144b36b8f7f7de6a0dc4f165a9dad00a116089);
  }

  /** The element to the other prime alone. */
  lemma Q150Other()
    ensures Cong(Power(B150, Q56), 0x2cbe55ea53ac8f31a83a9d88b34f81060f414, Q150)
  {
    hide Cong, Power;
    Q150OtherPart0();
    var e: nat, v := 0x147657f1865, 0x144b36b8f7f7de6a0dc4f165a9dad00a116089;
    e, v := SquareTimes(Q150, B150, e, v, 0xf18a2fb6bfc99608b8175a8d69c30baecad90);
    e, v := Square(Q150, B150, e, v, 0x6baea45186f3a33f5c43a007378048842bf04);
    e, v := Square(Q150, B150, e, v, 0x16fe45da0f440d1e5c235cc52cdca1f65d17a0);
    e, v := SquareTimes(Q150, B150, e, v, 0x19039e702af65832163d655de7c91793bc6b08);
    e, v := SquareTimes(Q150, B150, e, v, 0x2236f1209207aeb19496253774cdb48de47d37);
    e, v := SquareTimes(Q150, B150, e, v, 0x1bcdc796fe6991e513d2143f27a516ef3f0ab3);
    e, v := Square(Q150, B150, e, v, 0x15f1f25350823ed9e76a98eb6338c56b1dd972);
    e, v := SquareTimes(Q150, B150, e, v, 0xcf83ad19827e9538428b746f339523b9eb05b);
    e, v := Square(Q150, B150, e, v, 0x17bf50bf9ccb599d20dd9d2467f450a3110e2d);
    e, v := SquareTimes(Q150, B150, e, v, 0x13234524069ae7d52ca6f505d316a7567338dd);
    e, v := Square(Q150, B150, e, v, 0x1eb69f98f879877dd624fee315cc02001372f9);
    e, v := SquareTimes(Q150, B150, e, v, 0xd0ddc14d2adf6ba2f702a58507ee671094328);
    e, v := SquareTimes(Q150, B150, e, v, 0x298deb2c348bd915d5a352899b82c8caff3b2);
    e, v := SquareTimes(Q150, B150, e, v, 0xcdb658f31486a89d9349612f52e4fdd9fab41);
    e, v := SquareTimes(Q150, B150, e, v, 0x2cbe55ea53ac8f31a83a9d88b34f81060f414);
  }

  lemma Q150Prime()
    ensures Prime(Q150)
  {
    hide Cong, Power, Prime, Apart;
    Q56Prime();
    Q44Prime();
    Q150First();
    Q150Second();
    Q150Other();
    Tower(Q150, B150, Q44, H150, Q56);
    ApartBy(Q150, B150, Q44, H150, 0x1c57608cca63bd0dec0bb61f90d77cc342f96e);
    ApartBy(Q150, B150, Q56, 0x2cbe55ea53ac8f31a83a9d88b34f81060f414, 0xe62dfc289b94889baf37a7ecd87a1cba8a4a8);
    Criterion(Q150, B150, Q56, Q44);
  }

  /** The element for Q56 to the one prime of its order. */
  lemma Q56First()
    ensures Cong(Power(B56, 78283), 0x3505c3c9f91b61, Q56)
  {
    hide Cong, Power;
    var e, v := FirstBit(Q56, B56);
    e, v := Square(Q56, B56, e, v, 0xeb9a3b9b7994c);
    e, v := Square(Q56, B56, e, v, 0x6334fd142c0f2a);
    e, v := SquareTimes(Q56, B56, e, v, 0x8571d4bf6518a5);
    e, v := SquareTimes(Q56, B56, e, v, 0x8f991b2ab327ec);
    e, v := Square(Q56, B56, e, v, 0x7a662a1b13be12);
    e, v := Square(Q56, B56, e, v, 0x9bcce139eaeb3a);
    e, v := Square(Q56, B56, e, v, 0x3c3dac1984afbc);
    e, v := SquareTimes(Q56, B56, e, v, 0x6e6986cccfad0c);
    e, v := SquareTimes(Q56, B56, e, v, 0x2ce7dd562488a6);
    e, v := SquareTimes(Q56, B56, e, v, 0x5880d1f51b710b);
    e, v := Square(Q56, B56, e, v, 0x5b445a5802c887);
    e, v := Square(Q56, B56, e, v, 0x5807e0ade9e150);
    e, v := SquareTimes(Q56, B56, e, v, 0x65e2eb86764783);
    e, v := Square(Q56, B56, e, v, 0x492a203b1be754);
    e, v := SquareTimes(Q56, B56, e, v, 0x80fac8afefb793);
    e, v := SquareTimes(Q56, B56, e, v, 0x3505c3c9f91b61);
  }

  /** That power to the other prime. */
  lemma Q56Second()
    ensures Cong(Power(H56, 704251), 0x1, Q56)
  {
    hide Cong, Power;
    var e, v := FirstBit(Q56, H56);
    e, v := Square(Q56, H56, e, v, 0x8cbe1b34991644);
    e, v := SquareTimes(Q56, H56, e, v, 0x65db79314e0654);
    e, v := Square(Q56, H56, e, v, 0x95cb9374ff9652);
    e, v := SquareTimes(Q56, H56, e, v, 0x327b5c75cb58c5);
    e, v := Square(Q56, H56, e, v, 0xa00c73a30185d8);
    e, v := SquareTimes(Q56, H56, e, v, 0x39b9a47fae711);
    e, v := SquareTimes(Q56, H56, e, v, 0x1e650060001798);
    e, v := SquareTimes(Q56, H56, e, v, 0x94899e7e40ac2);
    e, v := SquareTimes(Q56, H56, e, v, 0x59da78a3bc011b);
    e, v := SquareTimes(Q56, H56, e, v, 0x12a62ffe050321);
    e, v := Square(Q56, H56, e, v, 0x83da0fad19f685);
    e, v := SquareTimes(Q56, H56, e, v, 0x27ae16699e4f66);
    e, v := SquareTimes(Q56, H56, e, v, 0x26674a953b7999);
    e, v := SquareTimes(Q56, H56, e, v, 0x996dc8f1ffaa2c);
    e, v := SquareTimes(Q56, H56, e, v, 0x61123dd42b18b2);
    e, v := SquareTimes(Q56, H56, e, v, 0x8c5c1704c39309);
    e, v := Square(Q56, H56, e, v, 0x26975861391d23);
    e, v := SquareTimes(Q56, H56, e, v, 0x1e62d1bfb4c728);
    e, v := SquareTimes(Q56, H56, e, v, 0x1);
  }

  /** The element to the other prime alone. */
  lemma Q56Other()
    ensures Cong(Power(B56, 704251), 0x5e0ec2c5d65225, Q56)
  {
    hide Cong, Power;
    var e, v := FirstBit(Q56, B56);
    e, v := Square(Q56, B56, e, v, 0xeb9a3b9b7994c);
    e, v := SquareTimes(Q56, B56, e, v, 0x9bda5904ab635d);
    e, v := Square(Q56, B56, e, v, 0x79e342235e0e29);
    e, v := SquareTimes(Q56, B56, e, v, 0x413d9b458ad493);
    e, v := Square(Q56, B56, e, v, 0x742e37ee321152);
    e, v := SquareTimes(Q56, B56, e, v, 0x4c092c68dd2f5d);
    e, v := SquareTimes(Q56, B56, e, v, 0x76f9603aea9219);
    e, v := SquareTimes(Q56, B56, e, v, 0x174645cf36a371);
    e, v := SquareTimes(Q56, B56, e, v, 0x39b8f6600faa79);
    e, v := SquareTimes(Q56, B56, e, v, 0x9b632bfa4e691d);
    e, v := Square(Q56, B56, e, v, 0x64d0bb1a253c68);
    e, v := SquareTimes(Q56, B56, e, v, 0x20bba145066be3);
    e, v := SquareTimes(Q56, B56, e, v, 0x44e18981ded7b);
    e, v := SquareTimes(Q56, B56, e, v, 0x36b8c0c213828e);
    e, v := SquareTimes(Q56, B56, e, v, 0x862963b25cec6);
    e, v := SquareTimes(Q56, B56, e, v, 0x301773759ab921);
    e, v := Square(Q56, B56, e, v, 0x103c4aa37a0cc6);
    e, v := SquareTimes(Q56, B56, e, v, 0x5efab9bf4422da);
    e, v := SquareTimes(Q56, B56, e, v, 0x5e0ec2c5d65225);
  }

  lemma Q56Prime()
    ensures Prime(Q56)
  {
    hide Cong, Power, Prime, Apart;
    N704251Prime();
    N78283Prime();
    Q56First();
    Q56Second();
    Q56Other();
    Tower(Q56, B56, 78283, H56, 704251);
    ApartBy(Q56, B56, 78283, H56, 0x3382d1c86f8bb8);
    ApartBy(Q56, B56, 704251, 0x5e0ec2c5d65225, 0x93a72f8843276b);
    Criterion(Q56, B56, 704251, 78283);
  }

  /** The order of the element for Q44. */
  lemma Q44Order()
    ensures Cong(Power(B44, Q36), 0x1, Q44)
  {
    hide Cong, Power;
    var e, v := FirstBit(Q44, B44);
    e, v := SquareTimes(Q44, B44, e, v, 0x4458509b801);
    e, v := SquareTimes(Q44, B44, e, v, 0x39366e91e33);
    e, v := SquareTimes(Q44, B44, e, v, 0x90cd8ee061b);
    e, v := Square(Q44, B44, e, v, 0x5e5de7e3e2f);
    e, v := SquareTimes(Q44, B44, e, v, 0x2b0c6c6fe6c);
    e, v := SquareTimes(Q44, B44, e, v, 0x5b4dcd2a35f);
    e, v := SquareTimes(Q44, B44, e, v, 0x3ed02cad84c);
    e, v := Square(Q44, B44, e, v, 0x946dbafc66c);
    e, v := SquareTimes(Q44, B44, e, v, 0x5b9b3c714ca);
    e, v := SquareTimes(Q44, B44, e, v, 0x95bd437f28f);
    e, v := Square(Q44, B44, e, v, 0x92f14a7f6e1);
    e, v := SquareTimes(Q44, B44, e, v, 0x4805c015755);
    e, v := SquareTimes(Q44, B44, e, v, 0x40f1ab8d2a2);
    e, v := Square(Q44, B44, e, v, 0x2cbafe10854);
    e, v := Square(Q44, B44, e, v, 0x485c4ccf559);
    e, v := SquareTimes(Q44, B44, e, v, 0x517d39db245);
    e, v := Square(Q44, B44, e, v, 0x65e0b3710b8);
    e, v := Square(Q44, B44, e, v, 0x4ebcd658bb1);
    e, v := Square(Q44, B44, e, v, 0x510c97f6f04);
    e, v := SquareTimes(Q44, B44, e, v, 0x26804fcaa9c);
    e, v := SquareTimes(Q44, B44, e, v, 0x882e94c5173);
    e, v := SquareTimes(Q44, B44, e, v, 0x13cada1c202);
    e, v := SquareTimes(Q44, B44, e, v, 0xe70122b8f5);
    e, v := SquareTimes(Q44, B44, e, v, 0x51ccff1d24);
    e, v := SquareTimes(Q44, B44, e, v, 0xa1283581ad);
    e, v := SquareTimes(Q44, B44, e, v, 0x881992afc97);
    e, v := SquareTimes(Q44, B44, e, v, 0x62252026937);
    e, v := SquareTimes(Q44, B44, e, v, 0x2dd4f06ed2a);
    e, v := SquareTimes(Q44, B44, e, v, 0x65d4a6d5945);
    e, v := Square(Q44, B44, e, v, 0x608e6cd5a79);
    e, v := Square(Q44, B44, e, v, 0x86fc6bb80e7);
    e, v := SquareTimes(Q44, B44, e, v, 0x77b143994ff);
    e, v := Square(Q44, B44, e, v, 0x7961a8c9570);
    e, v := SquareTimes(Q44, B44, e, v, 0x9c7cf98a7f3);
    e, v := SquareTimes(Q44, B44, e, v, 0x1);
  }

  lemma Q44Prime()
    ensures Prime(Q44)
  {
    hide Cong, Power, Prime, Apart;
    Q36Prime();
    Q44Order();
    var _, _ := FirstBit(Q44, B44);
    ApartBy(Q44, B44, 1, B44, 0x3dcf4686688);
    Criterion(Q44, B44, Q36, 1);
  }

  /** The element for Q36 to the one prime of its order. */
  lemma Q36First()
    ensures Cong(Power(B36, 197), 0xf6b013cde, Q36)
  {
    hide Cong, Power;
    var e, v := FirstBit(Q36, B36);
    e, v := SquareTimes(Q36, B36, e, v, 0x76124bae0);
    e, v := Square(Q36, B36, e, v, 0x1e232d87e);
    e, v := Square(Q36, B36, e, v, 0x6afec86ac);
    e, v := Square(Q36, B36, e, v, 0x99ec46905);
    e, v := SquareTimes(Q36, B36, e, v, 0x22a803f4a);
    e, v := Square(Q36, B36, e, v, 0x46fed4911);
    e, v := SquareTimes(Q36, B36, e, v, 0xf6b013cde);
  }

  /** That power to the other prime. */
  lemma Q36Second()
    ensures Cong(Power(H36, 3677), 0x1, Q36)
  {
    hide Cong, Power;
    var e, v := FirstBit(Q36, H36);
    e, v := SquareTimes(Q36, H36, e, v, 0xd47b250a8);
    e, v := SquareTimes(Q36, H36, e, v, 0x75f357e28);
    e, v := Square(Q36, H36, e, v, 0xded06f9a1);
    e, v := Square(Q36, H36, e, v, 0xef18fe4a3);
    e, v := SquareTimes(Q36, H36, e, v, 0xa5c2534d0);
    e, v := Square(Q36, H36, e, v, 0x2452f6f98);
    e, v := SquareTimes(Q36, H36, e, v, 0x7f17ce711);
    e, v := SquareTimes(Q36, H36, e, v, 0x290da0b7d);
    e, v := SquareTimes(Q36, H36, e, v, 0x17e616c97);
    e, v := Square(Q36, H36, e, v, 0x595e61e7d);
    e, v := SquareTimes(Q36, H36, e, v, 0x1);
  }

  /** The element to the other prime alone. */
  lemma Q36Other()
    ensures Cong(Power(B36, 3677), 0x812e0a1b9, Q36)
  {
    hide Cong, Power;
    var e, v := FirstBit(Q36, B36);
    e, v := SquareTimes(Q36, B36, e, v, 0x76124bae0);
    e, v := SquareTimes(Q36, B36, e, v, 0xeb027c928);
    e, v := Square(Q36, B36, e, v, 0x92796a4b2);
    e, v := Square(Q36, B36, e, v, 0xbc858a8f7);
    e, v := SquareTimes(Q36, B36, e, v, 0xeb3f0c72d);
    e, v := Square(Q36, B36, e, v, 0xa249a8207);
    e, v := SquareTimes(Q36, B36, e, v, 0x4788b8c4b);
    e, v := SquareTimes(Q36, B36, e, v, 0x359eee43c);
    e, v := SquareTimes(Q36, B36, e, v, 0xb73af501f);
    e, v := Square(Q36, B36, e, v, 0xcfff2827c);
    e, v := SquareTimes(Q36, B36, e, v, 0x812e0a1b9);
  }

  lemma Q36Prime()
    ensures Prime(Q36)
  {
    hide Cong, Power, Prime, Apart;
    N3677Prime();
    N197Prime();
    Q36First();
    Q36Second();
    Q36Other();
    Tower(Q36, B36, 197, H36, 3677);
    ApartBy(Q36, B36, 197, H36, 0xb8335656d);
    ApartBy(Q36, B36, 3677, 0x812e0a1b9, 0xbecb15555);
    Criterion(Q36, B36, 3677, 197);
  }
}
