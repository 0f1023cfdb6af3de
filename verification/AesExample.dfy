/** The cipher example of appendix B of FIPS 197, word for word. */
module AesExample {
  import opened AesTables
  import opened AesField
  import opened Aes

  function ExampleKey(): (key: seq<bv8>)
    ensures |key| == 16
  {
    [0x2b, 0x7e, 0x15, 0x16, 0x28, 0xae, 0xd2, 0xa6, 0xab, 0xf7, 0x15, 0x88, 0x09, 0xcf, 0x4f, 0x3c]
  }

  predicate KeysAre(key: seq<bv8>, i: nat, a: bv32, b: bv32, c: bv32, d: bv32)
    requires |key| == 16
  {
    KeyWord(key, 4 * i) == a && KeyWord(key, 4 * i + 1) == b && KeyWord(key, 4 * i + 2) == c && KeyWord(key, 4 * i + 3) == d
  }

  lemma ExampleKeys0(key: seq<bv8>, i: nat)
    requires key == ExampleKey() && i == 0
    ensures KeysAre(key, i, 0x2b7e1516, 0x28aed2a6, 0xabf71588, 0x09cf4f3c)
  {
    KeyWordFirst(key);
  }

  lemma ExampleCore1()
    ensures KeyCore(0x2b7e1516, 0x09cf4f3c, 0x01) == 0xa0fafe17
    ensures Add(0x28aed2a6, 0xa0fafe17) == 0x88542cb1 && Add(0xabf71588, 0x88542cb1) == 0x23a33939 && Add(0x09cf4f3c, 0x23a33939) == 0x2a6c7605
  {
  }

  lemma ExampleKeys1(key: seq<bv8>, i: nat)
    requires key == ExampleKey() && i == 1
    ensures KeysAre(key, i, 0xa0fafe17, 0x88542cb1, 0x23a33939, 0x2a6c7605)
  {
    hide KeyWord, KeyCore, Add;
    ExampleKeys0(key, i - 1);
    ExampleCore1();
    KeyWordStep(key, i - 1);
  }

  lemma ExampleCore2()
    ensures KeyCore(0xa0fafe17, 0x2a6c7605, 0x02) == 0xf2c295f2
    ensures Add(0x88542cb1, 0xf2c295f2) == 0x7a96b943 && Add(0x23a33939, 0x7a96b943) == 0x5935807a && Add(0x2a6c7605, 0x5935807a) == 0x7359f67f
  {
  }

  lemma ExampleKeys2(key: seq<bv8>, i: nat)
    requires key == ExampleKey() && i == 2
    ensures KeysAre(key, i, 0xf2c295f2, 0x7a96b943, 0x5935807a, 0x7359f67f)
  {
    hide KeyWord, KeyCore, Add;
    ExampleKeys1(key, i - 1);
    ExampleCore2();
    KeyWordStep(key, i - 1);
  }

  lemma ExampleCore3()
    ensures KeyCore(0xf2c295f2, 0x7359f67f, 0x04) == 0x3d80477d
    ensures Add(0x7a96b943, 0x3d80477d) == 0x4716fe3e && Add(0x5935807a, 0x4716fe3e) == 0x1e237e44 && Add(0x7359f67f, 0x1e237e44) == 0x6d7a883b
  {
  }

  lemma ExampleKeys3(key: seq<bv8>, i: nat)
    requires key == ExampleKey() && i == 3
    ensures KeysAre(key, i, 0x3d80477d, 0x4716fe3e, 0x1e237e44, 0x6d7a883b)
  {
    hide KeyWord, KeyCore, Add;
    ExampleKeys2(key, i - 1);
    ExampleCore3();
    KeyWordStep(key, i - 1);
  }

  lemma ExampleCore4()
    ensures KeyCore(0x3d80477d, 0x6d7a883b, 0x08) == 0xef44a541
    ensures Add(0x4716fe3e, 0xef44a541) == 0xa8525b7f && Add(0x1e237e44, 0xa8525b7f) == 0xb671253b && Add(0x6d7a883b, 0xb671253b) == 0xdb0bad00
  {
  }

  lemma ExampleKeys4(key: seq<bv8>, i: nat)
    requires key == ExampleKey() && i == 4
    ensures KeysAre(key, i, 0xef44a541, 0xa8525b7f, 0xb671253b, 0xdb0bad00)
  {
    hide KeyWord, KeyCore, Add;
    ExampleKeys3(key, i - 1);
    ExampleCore4();
    KeyWordStep(key, i - 1);
  }

  lemma ExampleCore5()
    ensures KeyCore(0xef44a541, 0xdb0bad00, 0x10) == 0xd4d1c6f8
    ensures Add(0xa8525b7f, 0xd4d1c6f8) == 0x7c839d87 && Add(0xb671253b, 0x7c839d87) == 0xcaf2b8bc && Add(0xdb0bad00, 0xcaf2b8bc) == 0x11f915bc
  {
  }

  lemma ExampleKeys5(key: seq<bv8>, i: nat)
    requires key == ExampleKey() && i == 5
    ensures KeysAre(key, i, 0xd4d1c6f8, 0x7c839d87, 0xcaf2b8bc, 0x11f915bc)
  {
    hide KeyWord, KeyCore, Add;
    ExampleKeys4(key, i - 1);
    ExampleCore5();
    KeyWordStep(key, i - 1);
  }

  lemma ExampleCore6()
    ensures KeyCore(0xd4d1c6f8, 0x11f915bc, 0x20) == 0x6d88a37a
    ensures Add(0x7c839d87, 0x6d88a37a) == 0x110b3efd && Add(0xcaf2b8bc, 0x110b3efd) == 0xdbf98641 && Add(0x11f915bc, 0xdbf98641) == 0xca0093fd
  {
  }

  lemma ExampleKeys6(key: seq<bv8>, i: nat)
    requires key == ExampleKey() && i == 6
    ensures KeysAre(key, i, 0x6d88a37a, 0x110b3efd, 0xdbf98641, 0xca0093fd)
  {
    hide KeyWord, KeyCore, Add;
    ExampleKeys5(key, i - 1);
    ExampleCore6();
    KeyWordStep(key, i - 1);
  }

  lemma ExampleCore7()
    ensures KeyCore(0x6d88a37a, 0xca0093fd, 0x40) == 0x4e54f70e
    ensures Add(0x110b3efd, 0x4e54f70e) == 0x5f5fc9f3 && Add(0xdbf98641, 0x5f5fc9f3) == 0x84a64fb2 && Add(0xca0093fd, 0x84a64fb2) == 0x4ea6dc4f
  {
  }

  lemma ExampleKeys7(key: seq<bv8>, i: nat)
    requires key == ExampleKey() && i == 7
    ensures KeysAre(key, i, 0x4e54f70e, 0x5f5fc9f3, 0x84a64fb2, 0x4ea6dc4f)
  {
    hide KeyWord, KeyCore, Add;
    ExampleKeys6(key, i - 1);
    ExampleCore7();
    KeyWordStep(key, i - 1);
  }

  lemma ExampleCore8()
    ensures KeyCore(0x4e54f70e, 0x4ea6dc4f, 0x80) == 0xead27321
    ensures Add(0x5f5fc9f3, 0xead27321) == 0xb58dbad2 && Add(0x84a64fb2, 0xb58dbad2) == 0x312bf560 && Add(0x4ea6dc4f, 0x312bf560) == 0x7f8d292f
  {
  }

  lemma ExampleKeys8(key: seq<bv8>, i: nat)
    requires key == ExampleKey() && i == 8
    ensures KeysAre(key, i, 0xead27321, 0xb58dbad2, 0x312bf560, 0x7f8d292f)
  {
    hide KeyWord, KeyCore, Add;
    ExampleKeys7(key, i - 1);
    ExampleCore8();
    KeyWordStep(key, i - 1);
  }

  lemma ExampleCore9()
    ensures KeyCore(0xead27321, 0x7f8d292f, 0x1b) == 0xac7766f3
    ensures Add(0xb58dbad2, 0xac7766f3) == 0x19fadc21 && Add(0x312bf560, 0x19fadc21) == 0x28d12941 && Add(0x7f8d292f, 0x28d12941) == 0x575c006e
  {
  }

  lemma ExampleKeys9(key: seq<bv8>, i: nat)
    requires key == ExampleKey() && i == 9
    ensures KeysAre(key, i, 0xac7766f3, 0x19fadc21, 0x28d12941, 0x575c006e)
  {
    hide KeyWord, KeyCore, Add;
    ExampleKeys8(key, i - 1);
    ExampleCore9();
    KeyWordStep(key, i - 1);
  }

  lemma ExampleCore10()
    ensures KeyCore(0xac7766f3, 0x575c006e, 0x36) == 0xd014f9a8
    ensures Add(0x19fadc21, 0xd014f9a8) == 0xc9ee2589 && Add(0x28d12941, 0xc9ee2589) == 0xe13f0cc8 && Add(0x575c006e, 0xe13f0cc8) == 0xb6630ca6
  {
  }

  lemma ExampleKeys10(key: seq<bv8>, i: nat)
    requires key == ExampleKey() && i == 10
    ensures KeysAre(key, i, 0xd014f9a8, 0xc9ee2589, 0xe13f0cc8, 0xb6630ca6)
  {
    hide KeyWord, KeyCore, Add;
    ExampleKeys9(key, i - 1);
    ExampleCore10();
    KeyWordStep(key, i - 1);
  }

  // the state after the first key and n rounds
  predicate StateIs(key: seq<bv8>, b: Block, n: nat, s: Block)
    requires |key| == 16 && n <= 9
  {
    Rounds(ExpandKey(key), b, n) == s
  }

  lemma ExampleStart()
    ensures Add(0x3243f6a8, 0x2b7e1516) == 0x193de3be
    ensures Add(0x885a308d, 0x28aed2a6) == 0xa0f4e22b
    ensures Add(0x313198a2, 0xabf71588) == 0x9ac68d2a
    ensures Add(0xe0370734, 0x09cf4f3c) == 0xe9f84808
  {
  }

  lemma ExampleRound0(key: seq<bv8>, b: Block, n: nat)
    requires key == ExampleKey() && b == Block(0x3243f6a8, 0x885a308d, 0x313198a2, 0xe0370734) && n == 0
    ensures StateIs(key, b, n, Block(0x193de3be, 0xa0f4e22b, 0x9ac68d2a, 0xe9f84808))
  {
    hide KeyWord, Add;
    ExampleKeys0(key, n);
    ExampleStart();
  }

  lemma ExampleSub1()
    ensures SubWord(0x193de3be) == 0xd42711ae && SubWord(0xa0f4e22b) == 0xe0bf98f1 && SubWord(0x9ac68d2a) == 0xb8b45de5 && SubWord(0xe9f84808) == 0x1e415230
  {
  }

  lemma ExampleMix1()
    ensures Diagonal(0xd42711ae, 0xe0bf98f1, 0xb8b45de5, 0x1e415230) == 0xd4bf5d30
    ensures Diagonal(0xe0bf98f1, 0xb8b45de5, 0x1e415230, 0xd42711ae) == 0xe0b452ae
    ensures Diagonal(0xb8b45de5, 0x1e415230, 0xd42711ae, 0xe0bf98f1) == 0xb84111f1
    ensures Diagonal(0x1e415230, 0xd42711ae, 0xe0bf98f1, 0xb8b45de5) == 0x1e2798e5
    ensures MixWord(0xd4bf5d30) == 0x046681e5 && MixWord(0xe0b452ae) == 0xe0cb199a && MixWord(0xb84111f1) == 0x48f8d37a && MixWord(0x1e2798e5) == 0x2806264c
    ensures Add(0x046681e5, 0xa0fafe17) == 0xa49c7ff2 && Add(0xe0cb199a, 0x88542cb1) == 0x689f352b && Add(0x48f8d37a, 0x23a33939) == 0x6b5bea43 && Add(0x2806264c, 0x2a6c7605) == 0x026a5049
  {
  }

  lemma ExampleRound1(key: seq<bv8>, b: Block, n: nat)
    requires key == ExampleKey() && b == Block(0x3243f6a8, 0x885a308d, 0x313198a2, 0xe0370734) && n == 1
    ensures StateIs(key, b, n, Block(0xa49c7ff2, 0x689f352b, 0x6b5bea43, 0x026a5049))
  {
    hide KeyWord, SubWord, Diagonal, MixWord, Add;
    ExampleKeys1(key, n);
    ExampleRound0(key, b, n - 1);
    ExampleSub1();
    ExampleMix1();
  }

  lemma ExampleSub2()
    ensures SubWord(0xa49c7ff2) == 0x49ded289 && SubWord(0x689f352b) == 0x45db96f1 && SubWord(0x6b5bea43) == 0x7f39871a && SubWord(0x026a5049) == 0x7702533b
  {
  }

  lemma ExampleMix2()
    ensures Diagonal(0x49ded289, 0x45db96f1, 0x7f39871a, 0x7702533b) == 0x49db873b
    ensures Diagonal(0x45db96f1, 0x7f39871a, 0x7702533b, 0x49ded289) == 0x45395389
    ensures Diagonal(0x7f39871a, 0x7702533b, 0x49ded289, 0x45db96f1) == 0x7f02d2f1
    ensures Diagonal(0x7702533b, 0x49ded289, 0x45db96f1, 0x7f39871a) == 0x77de961a
    ensures MixWord(0x49db873b) == 0x584dcaf1 && MixWord(0x45395389) == 0x1b4b5aac && MixWord(0x7f02d2f1) == 0xdbe7caa8 && MixWord(0x77de961a) == 0x1b6bb0e5
    ensures Add(0x584dcaf1, 0xf2c295f2) == 0xaa8f5f03 && Add(0x1b4b5aac, 0x7a96b943) == 0x61dde3ef && Add(0xdbe7caa8, 0x5935807a) == 0x82d24ad2 && Add(0x1b6bb0e5, 0x7359f67f) == 0x6832469a
  {
  }

  lemma ExampleRound2(key: seq<bv8>, b: Block, n: nat)
    requires key == ExampleKey() && b == Block(0x3243f6a8, 0x885a308d, 0x313198a2, 0xe0370734) && n == 2
    ensures StateIs(key, b, n, Block(0xaa8f5f03, 0x61dde3ef, 0x82d24ad2, 0x6832469a))
  {
    hide KeyWord, SubWord, Diagonal, MixWord, Add;
    ExampleKeys2(key, n);
    ExampleRound1(key, b, n - 1);
    ExampleSub2();
    ExampleMix2();
  }

  lemma ExampleSub3()
    ensures SubWord(0xaa8f5f03) == 0xac73cf7b && SubWord(0x61dde3ef) == 0xefc111df && SubWord(0x82d24ad2) == 0x13b5d6b5 && SubWord(0x6832469a) == 0x45235ab8
  {
  }

  lemma ExampleMix3()
    ensures Diagonal(0xac73cf7b, 0xefc111df, 0x13b5d6b5, 0x45235ab8) == 0xacc1d6b8
    ensures Diagonal(0xefc111df, 0x13b5d6b5, 0x45235ab8, 0xac73cf7b) == 0xefb55a7b
    ensures Diagonal(0x13b5d6b5, 0x45235ab8, 0xac73cf7b, 0xefc111df) == 0x1323cfdf
    ensures Diagonal(0x45235ab8, 0xac73cf7b, 0xefc111df, 0x13b5d6b5) == 0x457311b5
    ensures MixWord(0xacc1d6b8) == 0x75ec0993 && MixWord(0xefb55a7b) == 0x200b6333 && MixWord(0x1323cfdf) == 0x53c0cf7c && MixWord(0x457311b5) == 0xbb25d0dc
    ensures Add(0x75ec0993, 0x3d80477d) == 0x486c4eee && Add(0x200b6333, 0x4716fe3e) == 0x671d9d0d && Add(0x53c0cf7c, 0x1e237e44) == 0x4de3b138 && Add(0xbb25d0dc, 0x6d7a883b) == 0xd65f58e7
  {
  }

  lemma ExampleRound3(key: seq<bv8>, b: Block, n: nat)
    requires key == ExampleKey() && b == Block(0x3243f6a8, 0x885a308d, 0x313198a2, 0xe0370734) && n == 3
    ensures StateIs(key, b, n, Block(0x486c4eee, 0x671d9d0d, 0x4de3b138, 0xd65f58e7))
  {
    hide KeyWord, SubWord, Diagonal, MixWord, Add;
    ExampleKeys3(key, n);
    ExampleRound2(key, b, n - 1);
    ExampleSub3();
    ExampleMix3();
  }

  lemma ExampleSub4()
    ensures SubWord(0x486c4eee) == 0x52502f28 && SubWord(0x671d9d0d) == 0x85a45ed7 && SubWord(0x4de3b138) == 0xe311c807 && SubWord(0xd65f58e7) == 0xf6cf6a94
  {
  }

  lemma ExampleMix4()
    ensures Diagonal(0x52502f28, 0x85a45ed7, 0xe311c807, 0xf6cf6a94) == 0x52a4c894
    ensures Diagonal(0x85a45ed7, 0xe311c807, 0xf6cf6a94, 0x52502f28) == 0x85116a28
    ensures Diagonal(0xe311c807, 0xf6cf6a94, 0x52502f28, 0x85a45ed7) == 0xe3cf2fd7
    ensures Diagonal(0xf6cf6a94, 0x52502f28, 0x85a45ed7, 0xe311c807) == 0xf6505e07
    ensures MixWord(0x52a4c894) == 0x0fd6daa9 && MixWord(0x85116a28) == 0x603138bf && MixWord(0xe3cf2fd7) == 0x6fc0106b && MixWord(0xf6505e07) == 0x5eb31301
    ensures Add(0x0fd6daa9, 0xef44a541) == 0xe0927fe8 && Add(0x603138bf, 0xa8525b7f) == 0xc86363c0 && Add(0x6fc0106b, 0xb671253b) == 0xd9b13550 && Add(0x5eb31301, 0xdb0bad00) == 0x85b8be01
  {
  }

  lemma ExampleRound4(key: seq<bv8>, b: Block, n: nat)
    requires key == ExampleKey() && b == Block(0x3243f6a8, 0x885a308d, 0x313198a2, 0xe0370734) && n == 4
    ensures StateIs(key, b, n, Block(0xe0927fe8, 0xc86363c0, 0xd9b13550, 0x85b8be01))
  {
    hide KeyWord, SubWord, Diagonal, MixWord, Add;
    ExampleKeys4(key, n);
    ExampleRound3(key, b, n - 1);
    ExampleSub4();
    ExampleMix4();
  }

  lemma ExampleSub5()
    ensures SubWord(0xe0927fe8) == 0xe14fd29b && SubWord(0xc86363c0) == 0xe8fbfbba && SubWord(0xd9b13550) == 0x35c89653 && SubWord(0x85b8be01) == 0x976cae7c
  {
  }

  lemma ExampleMix5()
    ensures Diagonal(0xe14fd29b, 0xe8fbfbba, 0x35c89653, 0x976cae7c) == 0xe1fb967c
    ensures Diagonal(0xe8fbfbba, 0x35c89653, 0x976cae7c, 0xe14fd29b) == 0xe8c8ae9b
    ensures Diagonal(0x35c89653, 0x976cae7c, 0xe14fd29b, 0xe8fbfbba) == 0x356cd2ba
    ensures Diagonal(0x976cae7c, 0xe14fd29b, 0xe8fbfbba, 0x35c89653) == 0x974ffb53
    ensures MixWord(0xe1fb967c) == 0x25d1a9ad && MixWord(0xe8c8ae9b) == 0xbd11d168 && MixWord(0x356cd2ba) == 0xb63a338e && MixWord(0x974ffb53) == 0x4c4cc0b0
    ensures Add(0x25d1a9ad, 0xd4d1c6f8) == 0xf1006f55 && Add(0xbd11d168, 0x7c839d87) == 0xc1924cef && Add(0xb63a338e, 0xcaf2b8bc) == 0x7cc88b32 && Add(0x4c4cc0b0, 0x11f915bc) == 0x5db5d50c
  {
  }

  lemma ExampleRound5(key: seq<bv8>, b: Block, n: nat)
    requires key == ExampleKey() && b == Block(0x3243f6a8, 0x885a308d, 0x313198a2, 0xe0370734) && n == 5
    ensures StateIs(key, b, n, Block(0xf1006f55, 0xc1924cef, 0x7cc88b32, 0x5db5d50c))
  {
    hide KeyWord, SubWord, Diagonal, MixWord, Add;
    ExampleKeys5(key, n);
    ExampleRound4(key, b, n - 1);
    ExampleSub5();
    ExampleMix5();
  }

  lemma ExampleSub6()
    ensures SubWord(0xf1006f55) == 0xa163a8fc && SubWord(0xc1924cef) == 0x784f29df && SubWord(0x7cc88b32) == 0x10e83d23 && SubWord(0x5db5d50c) == 0x4cd503fe
  {
  }

  lemma ExampleMix6()
    ensures Diagonal(0xa163a8fc, 0x784f29df, 0x10e83d23, 0x4cd503fe) == 0xa14f3dfe
    ensures Diagonal(0x784f29df, 0x10e83d23, 0x4cd503fe, 0xa163a8fc) == 0x78e803fc
    ensures Diagonal(0x10e83d23, 0x4cd503fe, 0xa163a8fc, 0x784f29df) == 0x10d5a8df
    ensures Diagonal(0x4cd503fe, 0xa163a8fc, 0x784f29df, 0x10e83d23) == 0x4c632923
    ensures MixWord(0xa14f3dfe) == 0x4b868d6d && MixWord(0x78e803fc) == 0x2c4a8980 && MixWord(0x10d5a8df) == 0x339df4e8 && MixWord(0x4c632923) == 0x37d218d8
    ensures Add(0x4b868d6d, 0x6d88a37a) == 0x260e2e17 && Add(0x2c4a8980, 0x110b3efd) == 0x3d41b77d && Add(0x339df4e8, 0xdbf98641) == 0xe86472a9 && Add(0x37d218d8, 0xca0093fd) == 0xfdd28b25
  {
  }

  lemma ExampleRound6(key: seq<bv8>, b: Block, n: nat)
    requires key == ExampleKey() && b == Block(0x3243f6a8, 0x885a308d, 0x313198a2, 0xe0370734) && n == 6
    ensures StateIs(key, b, n, Block(0x260e2e17, 0x3d41b77d, 0xe86472a9, 0xfdd28b25))
  {
    hide KeyWord, SubWord, Diagonal, MixWord, Add;
    ExampleKeys6(key, n);
    ExampleRound5(key, b, n - 1);
    ExampleSub6();
    ExampleMix6();
  }

  lemma ExampleSub7()
    ensures SubWord(0x260e2e17) == 0xf7ab31f0 && SubWord(0x3d41b77d) == 0x2783a9ff && SubWord(0xe86472a9) == 0x9b4340d3 && SubWord(0xfdd28b25) == 0x54b53d3f
  {
  }

  lemma ExampleMix7()
    ensures Diagonal(0xf7ab31f0, 0x2783a9ff, 0x9b4340d3, 0x54b53d3f) == 0xf783403f
    ensures Diagonal(0x2783a9ff, 0x9b4340d3, 0x54b53d3f, 0xf7ab31f0) == 0x27433df0
    ensures Diagonal(0x9b4340d3, 0x54b53d3f, 0xf7ab31f0, 0x2783a9ff) == 0x9bb531ff
    ensures Diagonal(0x54b53d3f, 0xf7ab31f0, 0x2783a9ff, 0x9b4340d3) == 0x54aba9d3
    ensures MixWord(0xf783403f) == 0x1415b5bf && MixWord(0x27433df0) == 0x461615ec && MixWord(0x9bb531ff) == 0x274656d7 && MixWord(0x54aba9d3) == 0x342ad843
    ensures Add(0x1415b5bf, 0x4e54f70e) == 0x5a4142b1 && Add(0x461615ec, 0x5f5fc9f3) == 0x1949dc1f && Add(0x274656d7, 0x84a64fb2) == 0xa3e01965 && Add(0x342ad843, 0x4ea6dc4f) == 0x7a8c040c
  {
  }

  lemma ExampleRound7(key: seq<bv8>, b: Block, n: nat)
    requires key == ExampleKey() && b == Block(0x3243f6a8, 0x885a308d, 0x313198a2, 0xe0370734) && n == 7
    ensures StateIs(key, b, n, Block(0x5a4142b1, 0x1949dc1f, 0xa3e01965, 0x7a8c040c))
  {
    hide KeyWord, SubWord, Diagonal, MixWord, Add;
    ExampleKeys7(key, n);
    ExampleRound6(key, b, n - 1);
    ExampleSub7();
    ExampleMix7();
  }

  lemma ExampleSub8()
    ensures SubWord(0x5a4142b1) == 0xbe832cc8 && SubWord(0x1949dc1f) == 0xd43b86c0 && SubWord(0xa3e01965) == 0x0ae1d44d && SubWord(0x7a8c040c) == 0xda64f2fe
  {
  }

  lemma ExampleMix8()
    ensures Diagonal(0xbe832cc8, 0xd43b86c0, 0x0ae1d44d, 0xda64f2fe) == 0xbe3bd4fe
    ensures Diagonal(0xd43b86c0, 0x0ae1d44d, 0xda64f2fe, 0xbe832cc8) == 0xd4e1f2c8
    ensures Diagonal(0x0ae1d44d, 0xda64f2fe, 0xbe832cc8, 0xd43b86c0) == 0x0a642cc0
    ensures Diagonal(0xda64f2fe, 0xbe832cc8, 0xd43b86c0, 0x0ae1d44d) == 0xda83864d
    ensures MixWord(0xbe3bd4fe) == 0x00512fd1 && MixWord(0xd4e1f2c8) == 0xb1c889ff && MixWord(0x0a642cc0) == 0x54766dcd && MixWord(0xda83864d) == 0xfa1b99ea
    ensures Add(0x00512fd1, 0xead27321) == 0xea835cf0 && Add(0xb1c889ff, 0xb58dbad2) == 0x0445332d && Add(0x54766dcd, 0x312bf560) == 0x655d98ad && Add(0xfa1b99ea, 0x7f8d292f) == 0x8596b0c5
  {
  }

  lemma ExampleRound8(key: seq<bv8>, b: Block, n: nat)
    requires key == ExampleKey() && b == Block(0x3243f6a8, 0x885a308d, 0x313198a2, 0xe0370734) && n == 8
    ensures StateIs(key, b, n, Block(0xea835cf0, 0x0445332d, 0x655d98ad, 0x8596b0c5))
  {
    hide KeyWord, SubWord, Diagonal, MixWord, Add;
    ExampleKeys8(key, n);
    ExampleRound7(key, b, n - 1);
    ExampleSub8();
    ExampleMix8();
  }

  lemma ExampleSub9()
    ensures SubWord(0xea835cf0) == 0x87ec4a8c && SubWord(0x0445332d) == 0xf26ec3d8 && SubWord(0x655d98ad) == 0x4d4c4695 && SubWord(0x8596b0c5) == 0x9790e7a6
  {
  }

  lemma ExampleMix9()
    ensures Diagonal(0x87ec4a8c, 0xf26ec3d8, 0x4d4c4695, 0x9790e7a6) == 0x876e46a6
    ensures Diagonal(0xf26ec3d8, 0x4d4c4695, 0x9790e7a6, 0x87ec4a8c) == 0xf24ce78c
    ensures Diagonal(0x4d4c4695, 0x9790e7a6, 0x87ec4a8c, 0xf26ec3d8) == 0x4d904ad8
    ensures Diagonal(0x9790e7a6, 0x87ec4a8c, 0xf26ec3d8, 0x4d4c4695) == 0x97ecc395
    ensures MixWord(0x876e46a6) == 0x473794ed && MixWord(0xf24ce78c) == 0x40d4e4a5 && MixWord(0x4d904ad8) == 0xa3703aa6 && MixWord(0x97ecc395) == 0x4c9f42bc
    ensures Add(0x473794ed, 0xac7766f3) == 0xeb40f21e && Add(0x40d4e4a5, 0x19fadc21) == 0x592e3884 && Add(0xa3703aa6, 0x28d12941) == 0x8ba113e7 && Add(0x4c9f42bc, 0x575c006e) == 0x1bc342d2
  {
  }

  lemma ExampleRound9(key: seq<bv8>, b: Block, n: nat)
    requires key == ExampleKey() && b == Block(0x3243f6a8, 0x885a308d, 0x313198a2, 0xe0370734) && n == 9
    ensures StateIs(key, b, n, Block(0xeb40f21e, 0x592e3884, 0x8ba113e7, 0x1bc342d2))
  {
    hide KeyWord, SubWord, Diagonal, MixWord, Add;
    ExampleKeys9(key, n);
    ExampleRound8(key, b, n - 1);
    ExampleSub9();
    ExampleMix9();
  }

  lemma ExampleSub10()
    ensures SubWord(0xeb40f21e) == 0xe9098972 && SubWord(0x592e3884) == 0xcb31075f && SubWord(0x8ba113e7) == 0x3d327d94 && SubWord(0x1bc342d2) == 0xaf2e2cb5
  {
  }

  lemma ExampleMix10()
    ensures Diagonal(0xe9098972, 0xcb31075f, 0x3d327d94, 0xaf2e2cb5) == 0xe9317db5
    ensures Diagonal(0xcb31075f, 0x3d327d94, 0xaf2e2cb5, 0xe9098972) == 0xcb322c72
    ensures Diagonal(0x3d327d94, 0xaf2e2cb5, 0xe9098972, 0xcb31075f) == 0x3d2e895f
    ensures Diagonal(0xaf2e2cb5, 0xe9098972, 0xcb31075f, 0x3d327d94) == 0xaf090794
    ensures Add(0xe9317db5, 0xd014f9a8) == 0x3925841d && Add(0xcb322c72, 0xc9ee2589) == 0x02dc09fb && Add(0x3d2e895f, 0xe13f0cc8) == 0xdc118597 && Add(0xaf090794, 0xb6630ca6) == 0x196a0b32
  {
  }

  // The key 2b7e..4f3c enciphers 3243..0734 as 3925..0b32.
  lemma ExampleCipher(key: seq<bv8>, b: Block)
    requires key == ExampleKey() && b == Block(0x3243f6a8, 0x885a308d, 0x313198a2, 0xe0370734)
    ensures Cipher(ExpandKey(key), b) == Block(0x3925841d, 0x02dc09fb, 0xdc118597, 0x196a0b32)
    ensures EqInvCipher(DecSchedule(ExpandKey(key)), Block(0x3925841d, 0x02dc09fb, 0xdc118597, 0x196a0b32)) == b
  {
    hide KeyWord, Rounds, SubWord, Diagonal, Add, EqInvCipher;
    ExampleKeys10(key, 10);
    ExampleRound9(key, b, 9);
    ExampleSub10();
    ExampleMix10();
    DecryptUndoesEncrypt(ExpandKey(key), b);
  }
}
