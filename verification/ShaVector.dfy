/** The example of FIPS 180 for SHA-256: the message "abc", worked out from the specification round by round. */
module ShaVector {
  import opened CryptoWords
  import opened Sha256Spec

  /** The only block of the padded message. */
  function Block(): (m: seq<Word>)
    ensures |m| == 16
  {
    [0x61626380, 0x00000000, 0x00000000, 0x00000000, 0x00000000, 0x00000000, 0x00000000, 0x00000000,
     0x00000000, 0x00000000, 0x00000000, 0x00000000, 0x00000000, 0x00000000, 0x00000000, 0x00000018]
  }

  // ---- the message schedule

  lemma NextWord(m: seq<Word>, t: nat)
    requires |m| == 16 && t >= 16
    ensures Schedule(m, t) == Next(Schedule(m, t - 2), Schedule(m, t - 7), Schedule(m, t - 15), Schedule(m, t - 16))
  {
    hide Next;
  }

  lemma FirstWords(m: seq<Word>)
    requires |m| == 16
    ensures forall t :: 0 <= t < 16 ==> Schedule(m, t) == m[t]
  {
  }

  lemma Words0(m: seq<Word>)
    requires m == Block()
    ensures Schedule(m, 0) == 0x61626380 && Schedule(m, 1) == 0x00000000
    ensures Schedule(m, 2) == 0x00000000 && Schedule(m, 3) == 0x00000000
    ensures Schedule(m, 4) == 0x00000000 && Schedule(m, 5) == 0x00000000
    ensures Schedule(m, 6) == 0x00000000 && Schedule(m, 7) == 0x00000000
    ensures Schedule(m, 8) == 0x00000000 && Schedule(m, 9) == 0x00000000
    ensures Schedule(m, 10) == 0x00000000 && Schedule(m, 11) == 0x00000000
    ensures Schedule(m, 12) == 0x00000000 && Schedule(m, 13) == 0x00000000
    ensures Schedule(m, 14) == 0x00000000 && Schedule(m, 15) == 0x00000018
  {
    FirstWords(m);
    hide Schedule;
  }

  lemma Words2(m: seq<Word>, t: nat)
    requires |m| == 16 && t == 16 && m == Block()
    ensures Schedule(m, t) == 0x61626380 && Schedule(m, t + 1) == 0x000f0000
    ensures Schedule(m, t + 2) == 0x7da86405 && Schedule(m, t + 3) == 0x600003c6
    ensures Schedule(m, t + 4) == 0x3e9d7b78 && Schedule(m, t + 5) == 0x0183fc00
    ensures Schedule(m, t + 6) == 0x12dcbfdb && Schedule(m, t + 7) == 0xe2e2c38e
  {
    hide Schedule;
    Words0(m);
    NextWord(m, 16); NextWord(m, 17); NextWord(m, 18); NextWord(m, 19);
    NextWord(m, 20); NextWord(m, 21); NextWord(m, 22); NextWord(m, 23);
  }

  lemma Words3(m: seq<Word>, t: nat)
    requires |m| == 16 && t == 24 && m == Block()
    ensures Schedule(m, t) == 0xc8215c1a && Schedule(m, t + 1) == 0xb73679a2
    ensures Schedule(m, t + 2) == 0xe5bc3909 && Schedule(m, t + 3) == 0x32663c5b
    ensures Schedule(m, t + 4) == 0x9d209d67 && Schedule(m, t + 5) == 0xec8726cb
    ensures Schedule(m, t + 6) == 0x702138a4 && Schedule(m, t + 7) == 0xd3b7973b
  {
    hide Schedule;
    Words0(m);
    Words2(m, 16);
    NextWord(m, 24); NextWord(m, 25); NextWord(m, 26); NextWord(m, 27);
    NextWord(m, 28); NextWord(m, 29); NextWord(m, 30); NextWord(m, 31);
  }

  lemma Words4(m: seq<Word>, t: nat)
    requires |m| == 16 && t == 32 && m == Block()
    ensures Schedule(m, t) == 0x93f5997f && Schedule(m, t + 1) == 0x3b68ba73
    ensures Schedule(m, t + 2) == 0xaff4ffc1 && Schedule(m, t + 3) == 0xf10a5c62
    ensures Schedule(m, t + 4) == 0x0a8b3996 && Schedule(m, t + 5) == 0x72af830a
    ensures Schedule(m, t + 6) == 0x9409e33e && Schedule(m, t + 7) == 0x24641522
  {
    hide Schedule;
    Words2(m, 16);
    Words3(m, 24);
    NextWord(m, 32); NextWord(m, 33); NextWord(m, 34); NextWord(m, 35);
    NextWord(m, 36); NextWord(m, 37); NextWord(m, 38); NextWord(m, 39);
  }

  lemma Words5(m: seq<Word>, t: nat)
    requires |m| == 16 && t == 40 && m == Block()
    ensures Schedule(m, t) == 0x9f47bf94 && Schedule(m, t + 1) == 0xf0a64f5a
    ensures Schedule(m, t + 2) == 0x3e246a79 && Schedule(m, t + 3) == 0x27333ba3
    ensures Schedule(m, t + 4) == 0x0c4763f2 && Schedule(m, t + 5) == 0x840abf27
    ensures Schedule(m, t + 6) == 0x7a290d5d && Schedule(m, t + 7) == 0x065c43da
  {
    hide Schedule;
    Words3(m, 24);
    Words4(m, 32);
    NextWord(m, 40); NextWord(m, 41); NextWord(m, 42); NextWord(m, 43);
    NextWord(m, 44); NextWord(m, 45); NextWord(m, 46); NextWord(m, 47);
  }

  lemma Words6(m: seq<Word>, t: nat)
    requires |m| == 16 && t == 48 && m == Block()
    ensures Schedule(m, t) == 0xfb3e89cb && Schedule(m, t + 1) == 0xcc7617db
    ensures Schedule(m, t + 2) == 0xb9e66c34 && Schedule(m, t + 3) == 0xa9993667
    ensures Schedule(m, t + 4) == 0x84badedd && Schedule(m, t + 5) == 0xc21462bc
    ensures Schedule(m, t + 6) == 0x1487472c && Schedule(m, t + 7) == 0xb20f7a99
  {
    hide Schedule;
    Words4(m, 32);
    Words5(m, 40);
    NextWord(m, 48); NextWord(m, 49); NextWord(m, 50); NextWord(m, 51);
    NextWord(m, 52); NextWord(m, 53); NextWord(m, 54); NextWord(m, 55);
  }

  lemma Words7(m: seq<Word>, t: nat)
    requires |m| == 16 && t == 56 && m == Block()
    ensures Schedule(m, t) == 0xef57b9cd && Schedule(m, t + 1) == 0xebe6b238
    ensures Schedule(m, t + 2) == 0x9fe3095e && Schedule(m, t + 3) == 0x78bc8d4b
    ensures Schedule(m, t + 4) == 0xa43fcf15 && Schedule(m, t + 5) == 0x668b2ff8
    ensures Schedule(m, t + 6) == 0xeeaba2cc && Schedule(m, t + 7) == 0x12b1edeb
  {
    hide Schedule;
    Words5(m, 40);
    Words6(m, 48);
    NextWord(m, 56); NextWord(m, 57); NextWord(m, 58); NextWord(m, 59);
    NextWord(m, 60); NextWord(m, 61); NextWord(m, 62); NextWord(m, 63);
  }

  // ---- the rounds

  lemma Onward(m: seq<Word>, t: nat, s: Working, k: Word, w: Word, r: Working)
    requires |m| == 16 && t < 64 && Rounds(WorkingOf(Initial()), m, t) == s && K(t) == k && Schedule(m, t) == w
    requires Round(s, k, w) == r
    ensures Rounds(WorkingOf(Initial()), m, t + 1) == r
  {
    hide Round, K, Schedule;
  }

  lemma Rounds0(m: seq<Word>)
    requires m == Block()
    ensures Rounds(WorkingOf(Initial()), m, 0) ==
      Working(0x6a09e667, 0xbb67ae85, 0x3c6ef372, 0xa54ff53a, 0x510e527f, 0x9b05688c, 0x1f83d9ab, 0x5be0cd19)
  {
  }

  lemma Rounds1(m: seq<Word>)
    requires m == Block()
    ensures Rounds(WorkingOf(Initial()), m, 8) ==
      Working(0x85a07b5f, 0xe5030380, 0x2b4209f5, 0x04409a6a, 0x0c657a79, 0x9b27a401, 0x714260ad, 0x43ada245)
  {
    hide Rounds, Schedule;
    Rounds0(m);
    Words0(m);
    var s0 := Working(0x6a09e667, 0xbb67ae85, 0x3c6ef372, 0xa54ff53a, 0x510e527f, 0x9b05688c, 0x1f83d9ab, 0x5be0cd19);
    var s1 := Working(0x5d6aebcd, 0x6a09e667, 0xbb67ae85, 0x3c6ef372, 0xfa2a4622, 0x510e527f, 0x9b05688c, 0x1f83d9ab);
    Onward(m, 0, s0, 0x428a2f98, 0x61626380, s1);
    var s2 := Working(0x5a6ad9ad, 0x5d6aebcd, 0x6a09e667, 0xbb67ae85, 0x78ce7989, 0xfa2a4622, 0x510e527f, 0x9b05688c);
    Onward(m, 1, s1, 0x71374491, 0x00000000, s2);
    var s3 := Working(0xc8c347a7, 0x5a6ad9ad, 0x5d6aebcd, 0x6a09e667, 0xf92939eb, 0x78ce7989, 0xfa2a4622, 0x510e527f);
    Onward(m, 2, s2, 0xb5c0fbcf, 0x00000000, s3);
    var s4 := Working(0xd550f666, 0xc8c347a7, 0x5a6ad9ad, 0x5d6aebcd, 0x24e00850, 0xf92939eb, 0x78ce7989, 0xfa2a4622);
    Onward(m, 3, s3, 0xe9b5dba5, 0x00000000, s4);
    var s5 := Working(0x04409a6a, 0xd550f666, 0xc8c347a7, 0x5a6ad9ad, 0x43ada245, 0x24e00850, 0xf92939eb, 0x78ce7989);
    Onward(m, 4, s4, 0x3956c25b, 0x00000000, s5);
    var s6 := Working(0x2b4209f5, 0x04409a6a, 0xd550f666, 0xc8c347a7, 0x714260ad, 0x43ada245, 0x24e00850, 0xf92939eb);
    Onward(m, 5, s5, 0x59f111f1, 0x00000000, s6);
    var s7 := Working(0xe5030380, 0x2b4209f5, 0x04409a6a, 0xd550f666, 0x9b27a401, 0x714260ad, 0x43ada245, 0x24e00850);
    Onward(m, 6, s6, 0x923f82a4, 0x00000000, s7);
    var s8 := Working(0x85a07b5f, 0xe5030380, 0x2b4209f5, 0x04409a6a, 0x0c657a79, 0x9b27a401, 0x714260ad, 0x43ada245);
    Onward(m, 7, s7, 0xab1c5ed5, 0x00000000, s8);
  }

  lemma Rounds2(m: seq<Word>)
    requires m == Block()
    ensures Rounds(WorkingOf(Initial()), m, 16) ==
      Working(0xb0fa238e, 0xc0645fde, 0xd932eb16, 0x87912990, 0x07590dcd, 0x0b92f20c, 0x745a48de, 0x1e578218)
  {
    hide Rounds, Schedule;
    Rounds1(m);
    Words0(m);
    var s8 := Working(0x85a07b5f, 0xe5030380, 0x2b4209f5, 0x04409a6a, 0x0c657a79, 0x9b27a401, 0x714260ad, 0x43ada245);
    var s9 := Working(0x8e04ecb9, 0x85a07b5f, 0xe5030380, 0x2b4209f5, 0x32ca2d8c, 0x0c657a79, 0x9b27a401, 0x714260ad);
    Onward(m, 8, s8, 0xd807aa98, 0x00000000, s9);
    var s10 := Working(0x8c87346b, 0x8e04ecb9, 0x85a07b5f, 0xe5030380, 0x1cc92596, 0x32ca2d8c, 0x0c657a79, 0x9b27a401);
    Onward(m, 9, s9, 0x12835b01, 0x00000000, s10);
    var s11 := Working(0x4798a3f4, 0x8c87346b, 0x8e04ecb9, 0x85a07b5f, 0x436b23e8, 0x1cc92596, 0x32ca2d8c, 0x0c657a79);
    Onward(m, 10, s10, 0x243185be, 0x00000000, s11);
    var s12 := Working(0xf71fc5a9, 0x4798a3f4, 0x8c87346b, 0x8e04ecb9, 0x816fd6e9, 0x436b23e8, 0x1cc92596, 0x32ca2d8c);
    Onward(m, 11, s11, 0x550c7dc3, 0x00000000, s12);
    var s13 := Working(0x87912990, 0xf71fc5a9, 0x4798a3f4, 0x8c87346b, 0x1e578218, 0x816fd6e9, 0x436b23e8, 0x1cc92596);
    Onward(m, 12, s12, 0x72be5d74, 0x00000000, s13);
    var s14 := Working(0xd932eb16, 0x87912990, 0xf71fc5a9, 0x4798a3f4, 0x745a48de, 0x1e578218, 0x816fd6e9, 0x436b23e8);
    Onward(m, 13, s13, 0x80deb1fe, 0x00000000, s14);
    var s15 := Working(0xc0645fde, 0xd932eb16, 0x87912990, 0xf71fc5a9, 0x0b92f20c, 0x745a48de, 0x1e578218, 0x816fd6e9);
    Onward(m, 14, s14, 0x9bdc06a7, 0x00000000, s15);
    var s16 := Working(0xb0fa238e, 0xc0645fde, 0xd932eb16, 0x87912990, 0x07590dcd, 0x0b92f20c, 0x745a48de, 0x1e578218);
    Onward(m, 15, s15, 0xc19bf174, 0x00000018, s16);
  }

  lemma Rounds3(m: seq<Word>)
    requires m == Block()
    ensures Rounds(WorkingOf(Initial()), m, 24) ==
      Working(0xc5d53d8d, 0xa7a3623f, 0xc2606d6d, 0x9dc68b63, 0xaa47c347, 0x49f5114a, 0xe1257970, 0x8ada8930)
  {
    hide Rounds, Schedule;
    Rounds2(m);
    Words2(m, 16);
    var s16 := Working(0xb0fa238e, 0xc0645fde, 0xd932eb16, 0x87912990, 0x07590dcd, 0x0b92f20c, 0x745a48de, 0x1e578218);
    var s17 := Working(0x21da9a9b, 0xb0fa238e, 0xc0645fde, 0xd932eb16, 0x8034229c, 0x07590dcd, 0x0b92f20c, 0x745a48de);
    Onward(m, 16, s16, 0xe49b69c1, 0x61626380, s17);
    var s18 := Working(0xc2fbd9d1, 0x21da9a9b, 0xb0fa238e, 0xc0645fde, 0x846ee454, 0x8034229c, 0x07590dcd, 0x0b92f20c);
    Onward(m, 17, s17, 0xefbe4786, 0x000f0000, s18);
    var s19 := Working(0xfe777bbf, 0xc2fbd9d1, 0x21da9a9b, 0xb0fa238e, 0xcc899961, 0x846ee454, 0x8034229c, 0x07590dcd);
    Onward(m, 18, s18, 0x0fc19dc6, 0x7da86405, s19);
    var s20 := Working(0xe1f20c33, 0xfe777bbf, 0xc2fbd9d1, 0x21da9a9b, 0xb0638179, 0xcc899961, 0x846ee454, 0x8034229c);
    Onward(m, 19, s19, 0x240ca1cc, 0x600003c6, s20);
    var s21 := Working(0x9dc68b63, 0xe1f20c33, 0xfe777bbf, 0xc2fbd9d1, 0x8ada8930, 0xb0638179, 0xcc899961, 0x846ee454);
    Onward(m, 20, s20, 0x2de92c6f, 0x3e9d7b78, s21);
    var s22 := Working(0xc2606d6d, 0x9dc68b63, 0xe1f20c33, 0xfe777bbf, 0xe1257970, 0x8ada8930, 0xb0638179, 0xcc899961);
    Onward(m, 21, s21, 0x4a7484aa, 0x0183fc00, s22);
    var s23 := Working(0xa7a3623f, 0xc2606d6d, 0x9dc68b63, 0xe1f20c33, 0x49f5114a, 0xe1257970, 0x8ada8930, 0xb0638179);
    Onward(m, 22, s22, 0x5cb0a9dc, 0x12dcbfdb, s23);
    var s24 := Working(0xc5d53d8d, 0xa7a3623f, 0xc2606d6d, 0x9dc68b63, 0xaa47c347, 0x49f5114a, 0xe1257970, 0x8ada8930);
    Onward(m, 23, s23, 0x76f988da, 0xe2e2c38e, s24);
  }

  lemma Rounds4(m: seq<Word>)
    requires m == Block()
    ensures Rounds(WorkingOf(Initial()), m, 32) ==
      Working(0x73b33bf5, 0xea992a22, 0xa0060b30, 0x363482c9, 0xba591112, 0x0109ab3a, 0xade79437, 0x6112a3b7)
  {
    hide Rounds, Schedule;
    Rounds3(m);
    Words3(m, 24);
    var s24 := Working(0xc5d53d8d, 0xa7a3623f, 0xc2606d6d, 0x9dc68b63, 0xaa47c347, 0x49f5114a, 0xe1257970, 0x8ada8930);
    var s25 := Working(0x1c2c2838, 0xc5d53d8d, 0xa7a3623f, 0xc2606d6d, 0x2823ef91, 0xaa47c347, 0x49f5114a, 0xe1257970);
    Onward(m, 24, s24, 0x983e5152, 0xc8215c1a, s25);
    var s26 := Working(0xcde8037d, 0x1c2c2838, 0xc5d53d8d, 0xa7a3623f, 0x14383d8e, 0x2823ef91, 0xaa47c347, 0x49f5114a);
    Onward(m, 25, s25, 0xa831c66d, 0xb73679a2, s26);
    var s27 := Working(0xb62ec4bc, 0xcde8037d, 0x1c2c2838, 0xc5d53d8d, 0xc74c6516, 0x14383d8e, 0x2823ef91, 0xaa47c347);
    Onward(m, 26, s26, 0xb00327c8, 0xe5bc3909, s27);
    var s28 := Working(0x77d37528, 0xb62ec4bc, 0xcde8037d, 0x1c2c2838, 0xedffbff8, 0xc74c6516, 0x14383d8e, 0x2823ef91);
    Onward(m, 27, s27, 0xbf597fc7, 0x32663c5b, s28);
    var s29 := Working(0x363482c9, 0x77d37528, 0xb62ec4bc, 0xcde8037d, 0x6112a3b7, 0xedffbff8, 0xc74c6516, 0x14383d8e);
    Onward(m, 28, s28, 0xc6e00bf3, 0x9d209d67, s29);
    var s30 := Working(0xa0060b30, 0x363482c9, 0x77d37528, 0xb62ec4bc, 0xade79437, 0x6112a3b7, 0xedffbff8, 0xc74c6516);
    Onward(m, 29, s29, 0xd5a79147, 0xec8726cb, s30);
    var s31 := Working(0xea992a22, 0xa0060b30, 0x363482c9, 0x77d37528, 0x0109ab3a, 0xade79437, 0x6112a3b7, 0xedffbff8);
    Onward(m, 30, s30, 0x06ca6351, 0x702138a4, s31);
    var s32 := Working(0x73b33bf5, 0xea992a22, 0xa0060b30, 0x363482c9, 0xba591112, 0x0109ab3a, 0xade79437, 0x6112a3b7);
    Onward(m, 31, s31, 0x14292967, 0xd3b7973b, s32);
  }

  lemma Rounds5(m: seq<Word>)
    requires m == Block()
    ensures Rounds(WorkingOf(Initial()), m, 40) ==
      Working(0x79ea687a, 0x6dc57a8a, 0x34df1604, 0x41a65cb1, 0x1efbc0a0, 0xf0781bc8, 0xa507a53d, 0x0772a26b)
  {
    hide Rounds, Schedule;
    Rounds4(m);
    Words4(m, 32);
    var s32 := Working(0x73b33bf5, 0xea992a22, 0xa0060b30, 0x363482c9, 0xba591112, 0x0109ab3a, 0xade79437, 0x6112a3b7);
    var s33 := Working(0x98e12507, 0x73b33bf5, 0xea992a22, 0xa0060b30, 0x9cd9f5f6, 0xba591112, 0x0109ab3a, 0xade79437);
    Onward(m, 32, s32, 0x27b70a85, 0x93f5997f, s33);
    var s34 := Working(0xfe604df5, 0x98e12507, 0x73b33bf5, 0xea992a22, 0x59249dd3, 0x9cd9f5f6, 0xba591112, 0x0109ab3a);
    Onward(m, 33, s33, 0x2e1b2138, 0x3b68ba73, s34);
    var s35 := Working(0xa9a7738c, 0xfe604df5, 0x98e12507, 0x73b33bf5, 0x085f3833, 0x59249dd3, 0x9cd9f5f6, 0xba591112);
    Onward(m, 34, s34, 0x4d2c6dfc, 0xaff4ffc1, s35);
    var s36 := Working(0x65a0cfe4, 0xa9a7738c, 0xfe604df5, 0x98e12507, 0xf4b002d6, 0x085f3833, 0x59249dd3, 0x9cd9f5f6);
    Onward(m, 35, s35, 0x53380d13, 0xf10a5c62, s36);
    var s37 := Working(0x41a65cb1, 0x65a0cfe4, 0xa9a7738c, 0xfe604df5, 0x0772a26b, 0xf4b002d6, 0x085f3833, 0x59249dd3);
    Onward(m, 36, s36, 0x650a7354, 0x0a8b3996, s37);
    var s38 := Working(0x34df1604, 0x41a65cb1, 0x65a0cfe4, 0xa9a7738c, 0xa507a53d, 0x0772a26b, 0xf4b002d6, 0x085f3833);
    Onward(m, 37, s37, 0x766a0abb, 0x72af830a, s38);
    var s39 := Working(0x6dc57a8a, 0x34df1604, 0x41a65cb1, 0x65a0cfe4, 0xf0781bc8, 0xa507a53d, 0x0772a26b, 0xf4b002d6);
    Onward(m, 38, s38, 0x81c2c92e, 0x9409e33e, s39);
    var s40 := Working(0x79ea687a, 0x6dc57a8a, 0x34df1604, 0x41a65cb1, 0x1efbc0a0, 0xf0781bc8, 0xa507a53d, 0x0772a26b);
    Onward(m, 39, s39, 0x92722c85, 0x24641522, s40);
  }

  lemma Rounds6(m: seq<Word>)
    requires m == Block()
    ensures Rounds(WorkingOf(Initial()), m, 48) ==
      Working(0x4172328d, 0xa14c14b0, 0x72ab4b91, 0x26628815, 0xfecf0bc6, 0xd57b94a9, 0xb7755da1, 0xa80f11f0)
  {
    hide Rounds, Schedule;
    Rounds5(m);
    Words5(m, 40);
    var s40 := Working(0x79ea687a, 0x6dc57a8a, 0x34df1604, 0x41a65cb1, 0x1efbc0a0, 0xf0781bc8, 0xa507a53d, 0x0772a26b);
    var s41 := Working(0xd6670766, 0x79ea687a, 0x6dc57a8a, 0x34df1604, 0x26352d63, 0x1efbc0a0, 0xf0781bc8, 0xa507a53d);
    Onward(m, 40, s40, 0xa2bfe8a1, 0x9f47bf94, s41);
    var s42 := Working(0xdf46652f, 0xd6670766, 0x79ea687a, 0x6dc57a8a, 0x838b2711, 0x26352d63, 0x1efbc0a0, 0xf0781bc8);
    Onward(m, 41, s41, 0xa81a664b, 0xf0a64f5a, s42);
    var s43 := Working(0x17aa0dfe, 0xdf46652f, 0xd6670766, 0x79ea687a, 0xdecd4715, 0x838b2711, 0x26352d63, 0x1efbc0a0);
    Onward(m, 42, s42, 0xc24b8b70, 0x3e246a79, s43);
    var s44 := Working(0x9d4baf93, 0x17aa0dfe, 0xdf46652f, 0xd6670766, 0xfda24c2e, 0xdecd4715, 0x838b2711, 0x26352d63);
    Onward(m, 43, s43, 0xc76c51a3, 0x27333ba3, s44);
    var s45 := Working(0x26628815, 0x9d4baf93, 0x17aa0dfe, 0xdf46652f, 0xa80f11f0, 0xfda24c2e, 0xdecd4715, 0x838b2711);
    Onward(m, 44, s44, 0xd192e819, 0x0c4763f2, s45);
    var s46 := Working(0x72ab4b91, 0x26628815, 0x9d4baf93, 0x17aa0dfe, 0xb7755da1, 0xa80f11f0, 0xfda24c2e, 0xdecd4715);
    Onward(m, 45, s45, 0xd6990624, 0x840abf27, s46);
    var s47 := Working(0xa14c14b0, 0x72ab4b91, 0x26628815, 0x9d4baf93, 0xd57b94a9, 0xb7755da1, 0xa80f11f0, 0xfda24c2e);
    Onward(m, 46, s46, 0xf40e3585, 0x7a290d5d, s47);
    var s48 := Working(0x4172328d, 0xa14c14b0, 0x72ab4b91, 0x26628815, 0xfecf0bc6, 0xd57b94a9, 0xb7755da1, 0xa80f11f0);
    Onward(m, 47, s47, 0x106aa070, 0x065c43da, s48);
  }

  lemma Rounds7(m: seq<Word>)
    requires m == Block()
    ensures Rounds(WorkingOf(Initial()), m, 56) ==
      Working(0x38cc9913, 0x3ec45cdb, 0xf5702fdb, 0x101fd28f, 0x54cb266b, 0xe50e1b4f, 0x9f4787c3, 0x529e7d00)
  {
    hide Rounds, Schedule;
    Rounds6(m);
    Words6(m, 48);
    var s48 := Working(0x4172328d, 0xa14c14b0, 0x72ab4b91, 0x26628815, 0xfecf0bc6, 0xd57b94a9, 0xb7755da1, 0xa80f11f0);
    var s49 := Working(0x05757ceb, 0x4172328d, 0xa14c14b0, 0x72ab4b91, 0xbd714038, 0xfecf0bc6, 0xd57b94a9, 0xb7755da1);
    Onward(m, 48, s48, 0x19a4c116, 0xfb3e89cb, s49);
    var s50 := Working(0xf11bfaa8, 0x05757ceb, 0x4172328d, 0xa14c14b0, 0x6e5c390c, 0xbd714038, 0xfecf0bc6, 0xd57b94a9);
    Onward(m, 49, s49, 0x1e376c08, 0xcc7617db, s50);
    var s51 := Working(0x7a0508a1, 0xf11bfaa8, 0x05757ceb, 0x4172328d, 0x52f1ccf7, 0x6e5c390c, 0xbd714038, 0xfecf0bc6);
    Onward(m, 50, s50, 0x2748774c, 0xb9e66c34, s51);
    var s52 := Working(0x886e7a22, 0x7a0508a1, 0xf11bfaa8, 0x05757ceb, 0x49231c1e, 0x52f1ccf7, 0x6e5c390c, 0xbd714038);
    Onward(m, 51, s51, 0x34b0bcb5, 0xa9993667, s52);
    var s53 := Working(0x101fd28f, 0x886e7a22, 0x7a0508a1, 0xf11bfaa8, 0x529e7d00, 0x49231c1e, 0x52f1ccf7, 0x6e5c390c);
    Onward(m, 52, s52, 0x391c0cb3, 0x84badedd, s53);
    var s54 := Working(0xf5702fdb, 0x101fd28f, 0x886e7a22, 0x7a0508a1, 0x9f4787c3, 0x529e7d00, 0x49231c1e, 0x52f1ccf7);
    Onward(m, 53, s53, 0x4ed8aa4a, 0xc21462bc, s54);
    var s55 := Working(0x3ec45cdb, 0xf5702fdb, 0x101fd28f, 0x886e7a22, 0xe50e1b4f, 0x9f4787c3, 0x529e7d00, 0x49231c1e);
    Onward(m, 54, s54, 0x5b9cca4f, 0x1487472c, s55);
    var s56 := Working(0x38cc9913, 0x3ec45cdb, 0xf5702fdb, 0x101fd28f, 0x54cb266b, 0xe50e1b4f, 0x9f4787c3, 0x529e7d00);
    Onward(m, 55, s55, 0x682e6ff3, 0xb20f7a99, s56);
  }

  lemma Rounds8(m: seq<Word>)
    requires m == Block()
    ensures Rounds(WorkingOf(Initial()), m, 64) ==
      Working(0x506e3058, 0xd39a2165, 0x04d24d6c, 0xb85e2ce9, 0x5ef50f24, 0xfb121210, 0x948d25b6, 0x961f4894)
  {
    hide Rounds, Schedule;
    Rounds7(m);
    Words7(m, 56);
    var s56 := Working(0x38cc9913, 0x3ec45cdb, 0xf5702fdb, 0x101fd28f, 0x54cb266b, 0xe50e1b4f, 0x9f4787c3, 0x529e7d00);
    var s57 := Working(0xfcd1887b, 0x38cc9913, 0x3ec45cdb, 0xf5702fdb, 0x9b5e906c, 0x54cb266b, 0xe50e1b4f, 0x9f4787c3);
    Onward(m, 56, s56, 0x748f82ee, 0xef57b9cd, s57);
    var s58 := Working(0xc062d46f, 0xfcd1887b, 0x38cc9913, 0x3ec45cdb, 0x7e44008e, 0x9b5e906c, 0x54cb266b, 0xe50e1b4f);
    Onward(m, 57, s57, 0x78a5636f, 0xebe6b238, s58);
    var s59 := Working(0xffb70472, 0xc062d46f, 0xfcd1887b, 0x38cc9913, 0x6d83bfc6, 0x7e44008e, 0x9b5e906c, 0x54cb266b);
    Onward(m, 58, s58, 0x84c87814, 0x9fe3095e, s59);
    var s60 := Working(0xb6ae8fff, 0xffb70472, 0xc062d46f, 0xfcd1887b, 0xb21bad3d, 0x6d83bfc6, 0x7e44008e, 0x9b5e906c);
    Onward(m, 59, s59, 0x8cc70208, 0x78bc8d4b, s60);
    var s61 := Working(0xb85e2ce9, 0xb6ae8fff, 0xffb70472, 0xc062d46f, 0x961f4894, 0xb21bad3d, 0x6d83bfc6, 0x7e44008e);
    Onward(m, 60, s60, 0x90befffa, 0xa43fcf15, s61);
    var s62 := Working(0x04d24d6c, 0xb85e2ce9, 0xb6ae8fff, 0xffb70472, 0x948d25b6, 0x961f4894, 0xb21bad3d, 0x6d83bfc6);
    Onward(m, 61, s61, 0xa4506ceb, 0x668b2ff8, s62);
    var s63 := Working(0xd39a2165, 0x04d24d6c, 0xb85e2ce9, 0xb6ae8fff, 0xfb121210, 0x948d25b6, 0x961f4894, 0xb21bad3d);
    Onward(m, 62, s62, 0xbef9a3f7, 0xeeaba2cc, s63);
    var s64 := Working(0x506e3058, 0xd39a2165, 0x04d24d6c, 0xb85e2ce9, 0x5ef50f24, 0xfb121210, 0x948d25b6, 0x961f4894);
    Onward(m, 63, s63, 0xc67178f2, 0x12b1edeb, s64);
  }

  lemma Padded(m: seq<Byte>)
    requires m == [0x61, 0x62, 0x63]
    ensures Pad(m) == [0x61, 0x62, 0x63, 0x80] + Zeros(52) + (BytesOf(0) + BytesOf(24))
  {
  }

  lemma Parsed(p: seq<Byte>)
    requires p == [0x61, 0x62, 0x63, 0x80] + Zeros(52) + (BytesOf(0) + BytesOf(24))
    ensures |p| == 64 && Parse(p) == Block()
  {
    assert p[0] == 0x61 && p[1] == 0x62 && p[2] == 0x63 && p[3] == 0x80;
    assert p[60] == 0 && p[61] == 0 && p[62] == 0 && p[63] == 24;
    assert forall i :: 4 <= i < 60 ==> p[i] == 0;
    hide BytesOf, Zeros;
  }

  /** The digest ba7816bf 8f01cfea 414140de 5dae2223 b00361a3 96177a9c b410ff61 f20015ad. */
  lemma Hashed(m: seq<Byte>)
    requires m == [0x61, 0x62, 0x63]
    ensures HashBlocks(Pad(m)) ==
      [0xba7816bf, 0x8f01cfea, 0x414140de, 0x5dae2223, 0xb00361a3, 0x96177a9c, 0xb410ff61, 0xf20015ad]
  {
    hide Pad, Rounds, Schedule;
    Padded(m);
    Parsed(Pad(m));
    Rounds8(Block());
    assert Pad(m)[..0] == [] && Pad(m)[0..] == Pad(m);
  }

  lemma OneWordMore(h: seq<Word>, w: Word)
    ensures OutputBytes(h + [w]) == OutputBytes(h) + BytesOf(w)
  {
    assert (h + [w])[..|h|] == h;
    hide BytesOf;
  }

  lemma FourWords(a: Word, b: Word, c: Word, d: Word)
    ensures OutputBytes([a, b, c, d]) == BytesOf(a) + BytesOf(b) + BytesOf(c) + BytesOf(d)
  {
    hide BytesOf;
    OneWordMore([], a);
    OneWordMore([a], b);
    OneWordMore([a, b], c);
    OneWordMore([a, b, c], d);
    assert [] + [a] == [a] && [a] + [b] == [a, b] && [a, b] + [c] == [a, b, c] && [a, b, c] + [d] == [a, b, c, d];
  }

  lemma {:induction false} MoreWords(g: seq<Word>, h: seq<Word>)
    ensures OutputBytes(g + h) == OutputBytes(g) + OutputBytes(h)
  {
    hide BytesOf;
    if h == [] {
      assert g + h == g;
    } else {
      var n := |h| - 1;
      MoreWords(g, h[..n]);
      OneWordMore(g + h[..n], h[n]);
      assert g + h == (g + h[..n]) + [h[n]];
    }
  }

  lemma FrontHalf()
    ensures OutputBytes([0xba7816bf, 0x8f01cfea, 0x414140de, 0x5dae2223]) == [
      0xba, 0x78, 0x16, 0xbf, 0x8f, 0x01, 0xcf, 0xea,
      0x41, 0x41, 0x40, 0xde, 0x5d, 0xae, 0x22, 0x23]
  {
    FourWords(0xba7816bf, 0x8f01cfea, 0x414140de, 0x5dae2223);
    hide OutputBytes;
  }

  lemma BackHalf()
    ensures OutputBytes([0xb00361a3, 0x96177a9c, 0xb410ff61, 0xf20015ad]) == [
      0xb0, 0x03, 0x61, 0xa3, 0x96, 0x17, 0x7a, 0x9c,
      0xb4, 0x10, 0xff, 0x61, 0xf2, 0x00, 0x15, 0xad]
  {
    FourWords(0xb00361a3, 0x96177a9c, 0xb410ff61, 0xf20015ad);
    hide OutputBytes;
  }

  /** In bytes, this is the digest of "abc". */
  lemma Example(m: seq<Byte>)
    requires m == [0x61, 0x62, 0x63]
    ensures Digest(m) == [
      0xba, 0x78, 0x16, 0xbf, 0x8f, 0x01, 0xcf, 0xea,
      0x41, 0x41, 0x40, 0xde, 0x5d, 0xae, 0x22, 0x23] + [
      0xb0, 0x03, 0x61, 0xa3, 0x96, 0x17, 0x7a, 0x9c,
      0xb4, 0x10, 0xff, 0x61, 0xf2, 0x00, 0x15, 0xad]
  {
    hide OutputBytes, BytesOf, Pad, HashBlocks;
    Hashed(m);
    FrontHalf();
    BackHalf();
    var g, h := [0xba7816bf, 0x8f01cfea, 0x414140de, 0x5dae2223], [0xb00361a3, 0x96177a9c, 0xb410ff61, 0xf20015ad];
    MoreWords(g, h);
    assert g + h == HashBlocks(Pad(m));
  }
}
