/** The tap pairs of the coarse-acquisition code against the code delays of section 3.3.2.3 of IS-GPS-200. */
module CaTaps {
  import opened CaCode

  /** The delay of G2 in chips, satellite by satellite. */
  function Delay(svNum: int): (d: nat)
    requires 1 <= svNum <= 37
    ensures 5 <= d <= 950
  {
    match svNum
      case 1 => 5
      case 2 => 6
      case 3 => 7
      case 4 => 8
      case 5 => 17
      case 6 => 18
      case 7 => 139
      case 8 => 140
      case 9 => 141
      case 10 => 251
      case 11 => 252
      case 12 => 254
      case 13 => 255
      case 14 => 256
      case 15 => 257
      case 16 => 258
      case 17 => 469
      case 18 => 470
      case 19 => 471
      case 20 => 472
      case 21 => 473
      case 22 => 474
      case 23 => 509
      case 24 => 512
      case 25 => 513
      case 26 => 514
      case 27 => 515
      case 28 => 516
      case 29 => 859
      case 30 => 860
      case 31 => 861
      case 32 => 862
      case 33 => 863
      case 34 => 950
      case 35 => 947
      case 36 => 948
      case 37 => 950
  }

  // ----- ten consecutive chips of G2 in a word, the present one lowest

  function Fed(s: bv10): bv10 {
    (s ^ (s >> 1) ^ (s >> 2) ^ (s >> 4) ^ (s >> 7) ^ (s >> 8)) & 1
  }

  function Next(s: bv10): bv10 {
    (s >> 1) | (Fed(s) << 9)
  }

  function Eight(s: bv10): bv10 {
    Next(Next(Next(Next(Next(Next(Next(Next(s))))))))
  }

  function SixtyFour(s: bv10): bv10 {
    Eight(Eight(Eight(Eight(Eight(Eight(Eight(Eight(s))))))))
  }

  function State(n: nat): bv10 {
    if n == 0 then 0x3FF else Next(State(n - 1))
  }

  function Chip10(s: bv10, j: nat): bool
    requires j < 10
  {
    if j == 0 then s & 1 == 1 else if j == 1 then s & 2 == 2 else if j == 2 then s & 4 == 4
    else if j == 3 then s & 8 == 8 else if j == 4 then s & 0x10 == 0x10 else if j == 5 then s & 0x20 == 0x20
    else if j == 6 then s & 0x40 == 0x40 else if j == 7 then s & 0x80 == 0x80
    else if j == 8 then s & 0x100 == 0x100 else s & 0x200 == 0x200
  }

  lemma {:induction false} NextShifts(s: bv10, j: nat)
    requires j < 9
    ensures Chip10(Next(s), j) == Chip10(s, j + 1)
  {}

  lemma {:induction false} NextFeeds(s: bv10)
    ensures Chip10(Next(s), 9) ==
            (Chip10(s, 0) != (Chip10(s, 1) != (Chip10(s, 2) != (Chip10(s, 4) != (Chip10(s, 7) != Chip10(s, 8))))))
  {}

  lemma {:induction false} StartShows(j: nat)
    requires j < 10
    ensures Chip10(0x3FF, j)
  {}

  lemma {:induction false} StateNext(n: nat)
    ensures State(n + 1) == Next(State(n)) && State(0) == 0x3FF
  {
    hide Next;
  }

  lemma {:induction false} SixChips(a: bv8, b: bv8, c: bv8, d: bv8, e: bv8, f: bv8)
    requires a <= 1 && b <= 1 && c <= 1 && d <= 1 && e <= 1 && f <= 1
    ensures (a ^ b ^ c ^ d ^ e ^ f == 1)
            == ((f == 1) != ((e == 1) != ((d == 1) != ((c == 1) != ((b == 1) != (a == 1))))))
  {}

  /** The word shows the ten chips from n on. */
  lemma {:induction false} StateShows(n: nat, j: nat)
    requires j < 10
    ensures Chip10(State(n), j) == (G2(n + j) == 1)
  {
    hide Chip10, Next, G2;
    if n == 0 {
      StateNext(0);
      StartShows(j);
      G2Starts(j);
    } else {
      StateNext(n - 1);
      if j < 9 {
        NextShifts(State(n - 1), j);
        StateShows(n - 1, j + 1);
      } else {
        NextFeeds(State(n - 1));
        StateShows(n - 1, 0);
        StateShows(n - 1, 1);
        StateShows(n - 1, 2);
        StateShows(n - 1, 4);
        StateShows(n - 1, 7);
        StateShows(n - 1, 8);
        Recurrences(n - 1);
        SixChips(G2(n + 7), G2(n + 6), G2(n + 3), G2(n + 1), G2(n), G2(n - 1));
      }
    }
  }

  lemma {:induction false} G2Starts(j: nat)
    requires j < 10
    ensures G2(j) == 1
  {}

  // ----- the register far on

  lemma {:induction false} EightOn(n: nat)
    ensures State(n + 8) == Eight(State(n))
  {
    hide Next, State;
    StateNext(n);
    StateNext(n + 1);
    StateNext(n + 2);
    StateNext(n + 3);
    StateNext(n + 4);
    StateNext(n + 5);
    StateNext(n + 6);
    StateNext(n + 7);
  }

  lemma {:induction false} SixtyFourOn(n: nat)
    ensures State(n + 64) == SixtyFour(State(n))
  {
    hide Eight, State;
    EightOn(n);
    EightOn(n + 8);
    EightOn(n + 16);
    EightOn(n + 24);
    EightOn(n + 32);
    EightOn(n + 40);
    EightOn(n + 48);
    EightOn(n + 56);
  }

  lemma {:induction false} Mark64()
    ensures State(64) == 0x13B
  {
    StateNext(0);
    hide State;
    SixtyFourOn(0);
  }

  lemma {:induction false} Mark128()
    ensures State(128) == 0x2F4
  {
    Mark64();
    hide State;
    SixtyFourOn(64);
  }

  lemma {:induction false} Mark192()
    ensures State(192) == 0x2BF
  {
    Mark128();
    hide State;
    SixtyFourOn(128);
  }

  lemma {:induction false} Mark256()
    ensures State(256) == 0x2A9
  {
    Mark192();
    hide State;
    SixtyFourOn(192);
  }

  lemma {:induction false} Mark320()
    ensures State(320) == 0x34B
  {
    Mark256();
    hide State;
    SixtyFourOn(256);
  }

  lemma {:induction false} Mark384()
    ensures State(384) == 0x163
  {
    Mark320();
    hide State;
    SixtyFourOn(320);
  }

  lemma {:induction false} Mark448()
    ensures State(448) == 0x0AB
  {
    Mark384();
    hide State;
    SixtyFourOn(384);
  }

  lemma {:induction false} Mark512()
    ensures State(512) == 0x338
  {
    Mark448();
    hide State;
    SixtyFourOn(448);
  }

  lemma {:induction false} Mark576()
    ensures State(576) == 0x1CB
  {
    Mark512();
    hide State;
    SixtyFourOn(512);
  }

  lemma {:induction false} Mark640()
    ensures State(640) == 0x10A
  {
    Mark576();
    hide State;
    SixtyFourOn(576);
  }

  lemma {:induction false} Mark704()
    ensures State(704) == 0x0C8
  {
    Mark640();
    hide State;
    SixtyFourOn(640);
  }

  lemma {:induction false} Mark768()
    ensures State(768) == 0x340
  {
    Mark704();
    hide State;
    SixtyFourOn(704);
  }

  lemma {:induction false} Mark832()
    ensures State(832) == 0x234
  {
    Mark768();
    hide State;
    SixtyFourOn(768);
  }

  lemma {:induction false} Mark896()
    ensures State(896) == 0x031
  {
    Mark832();
    hide State;
    SixtyFourOn(832);
  }

  lemma {:induction false} Mark960()
    ensures State(960) == 0x23C
  {
    Mark896();
    hide State;
    SixtyFourOn(896);
  }

  lemma {:induction false} Start()
    ensures State(0) == 0x3FF && State(1) == 0x1FF && State(2) == 0x0FF && State(3) == 0x27F
    ensures State(4) == 0x13F && State(5) == 0x29F && State(6) == 0x34F && State(7) == 0x1A7
    ensures State(8) == 0x2D3 && State(9) == 0x169
  {
    StateNext(0);
    hide State;
    StateNext(0);
    StateNext(1);
    StateNext(2);
    StateNext(3);
    StateNext(4);
    StateNext(5);
    StateNext(6);
    StateNext(7);
    StateNext(8);
  }

  lemma {:induction false} Around73()
    ensures State(73) == 0x0B0 && State(75) == 0x22C && State(76) == 0x316
  {
    Mark64();
    hide State;
    EightOn(64);
    StateNext(72);
    StateNext(73);
    StateNext(74);
    StateNext(75);
  }

  lemma {:induction false} Around160()
    ensures State(160) == 0x160 && State(161) == 0x2B0 && State(162) == 0x158 && State(163) == 0x0AC
    ensures State(164) == 0x056
  {
    Mark128();
    hide State;
    EightOn(128);
    EightOn(136);
    EightOn(144);
    EightOn(152);
    StateNext(160);
    StateNext(161);
    StateNext(162);
    StateNext(163);
  }

  lemma {:induction false} Around507()
    ensures State(507) == 0x300 && State(508) == 0x380 && State(509) == 0x1C0 && State(510) == 0x0E0
    ensures State(511) == 0x270 && State(514) == 0x0CE
  {
    Mark448();
    hide State;
    EightOn(448);
    EightOn(456);
    EightOn(464);
    EightOn(472);
    EightOn(480);
    EightOn(488);
    EightOn(496);
    StateNext(504);
    StateNext(505);
    StateNext(506);
    StateNext(507);
    StateNext(508);
    StateNext(509);
    StateNext(510);
    StateNext(511);
    StateNext(512);
    StateNext(513);
  }

  lemma {:induction false} Around549()
    ensures State(549) == 0x0C0 && State(550) == 0x260 && State(551) == 0x130 && State(552) == 0x098
    ensures State(553) == 0x04C && State(554) == 0x226
  {
    Mark512();
    hide State;
    EightOn(512);
    EightOn(520);
    EightOn(528);
    EightOn(536);
    StateNext(544);
    StateNext(545);
    StateNext(546);
    StateNext(547);
    StateNext(548);
    StateNext(549);
    StateNext(550);
    StateNext(551);
    StateNext(552);
    StateNext(553);
  }

  lemma {:induction false} Around765()
    ensures State(765) == 0x200 && State(766) == 0x100 && State(767) == 0x280 && State(768) == 0x340
    ensures State(769) == 0x3A0 && State(771) == 0x2E8 && State(772) == 0x374
  {
    Mark704();
    hide State;
    EightOn(704);
    EightOn(712);
    EightOn(720);
    EightOn(728);
    EightOn(736);
    EightOn(744);
    EightOn(752);
    StateNext(760);
    StateNext(761);
    StateNext(762);
    StateNext(763);
    StateNext(764);
    StateNext(765);
    StateNext(766);
    StateNext(767);
    StateNext(768);
    StateNext(769);
    StateNext(770);
    StateNext(771);
  }

  lemma {:induction false} Around882()
    ensures State(882) == 0x258 && State(883) == 0x32C && State(884) == 0x196
  {
    Mark832();
    hide State;
    EightOn(832);
    EightOn(840);
    EightOn(848);
    EightOn(856);
    EightOn(864);
    EightOn(872);
    StateNext(880);
    StateNext(881);
    StateNext(882);
    StateNext(883);
  }

  lemma {:induction false} Around1005()
    ensures State(1005) == 0x12C && State(1006) == 0x096
  {
    Mark960();
    hide State;
    EightOn(960);
    EightOn(968);
    EightOn(976);
    EightOn(984);
    EightOn(992);
    StateNext(1000);
    StateNext(1001);
    StateNext(1002);
    StateNext(1003);
    StateNext(1004);
    StateNext(1005);
  }

  lemma {:induction false} Around1015()
    ensures State(1015) == 0x360 && State(1016) == 0x3B0 && State(1017) == 0x3D8 && State(1018) == 0x3EC
  {
    Mark960();
    hide State;
    EightOn(960);
    EightOn(968);
    EightOn(976);
    EightOn(984);
    EightOn(992);
    EightOn(1000);
    StateNext(1008);
    StateNext(1009);
    StateNext(1010);
    StateNext(1011);
    StateNext(1012);
    StateNext(1013);
    StateNext(1014);
    StateNext(1015);
    StateNext(1016);
    StateNext(1017);
  }

  lemma {:induction false} Around1023()
    ensures State(1023) == 0x3FF
  {
    Mark960();
    hide State;
    EightOn(960);
    EightOn(968);
    EightOn(976);
    EightOn(984);
    EightOn(992);
    EightOn(1000);
    EightOn(1008);
    StateNext(1016);
    StateNext(1017);
    StateNext(1018);
    StateNext(1019);
    StateNext(1020);
    StateNext(1021);
    StateNext(1022);
  }

  // ----- the satellites

  /** The tap pair of a satellite is the register so many chips later. */
  ghost predicate Matches(svNum: int)
    requires 1 <= svNum <= 37
  {
    var t := Taps(svNum); State(10 - t.0) ^ State(10 - t.1) == State(1023 - Delay(svNum))
  }

  lemma {:induction false} Satellites1015(svNum: int)
    requires svNum == 1 || svNum == 2 || svNum == 3 || svNum == 4
    ensures 1 <= svNum <= 37 && Matches(svNum)
  {
    Start();
    Around1015();
    hide State;
  }

  lemma {:induction false} Satellites1005(svNum: int)
    requires svNum == 5 || svNum == 6
    ensures 1 <= svNum <= 37 && Matches(svNum)
  {
    Start();
    Around1005();
    hide State;
  }

  lemma {:induction false} Satellites882(svNum: int)
    requires svNum == 7 || svNum == 8 || svNum == 9
    ensures 1 <= svNum <= 37 && Matches(svNum)
  {
    Start();
    Around882();
    hide State;
  }

  lemma {:induction false} Satellites765(svNum: int)
    requires svNum == 10 || svNum == 11 || svNum == 12 || svNum == 13 || svNum == 14 || svNum == 15 || svNum == 16
    ensures 1 <= svNum <= 37 && Matches(svNum)
  {
    Start();
    Around765();
    hide State;
  }

  lemma {:induction false} Satellites549(svNum: int)
    requires svNum == 17 || svNum == 18 || svNum == 19 || svNum == 20 || svNum == 21 || svNum == 22
    ensures 1 <= svNum <= 37 && Matches(svNum)
  {
    Start();
    Around549();
    hide State;
  }

  lemma {:induction false} Satellites507(svNum: int)
    requires svNum == 23 || svNum == 24 || svNum == 25 || svNum == 26 || svNum == 27 || svNum == 28
    ensures 1 <= svNum <= 37 && Matches(svNum)
  {
    Start();
    Around507();
    hide State;
  }

  lemma {:induction false} Satellites160(svNum: int)
    requires svNum == 29 || svNum == 30 || svNum == 31 || svNum == 32 || svNum == 33
    ensures 1 <= svNum <= 37 && Matches(svNum)
  {
    Start();
    Around160();
    hide State;
  }

  lemma {:induction false} Satellites73(svNum: int)
    requires svNum == 34 || svNum == 35 || svNum == 36 || svNum == 37
    ensures 1 <= svNum <= 37 && Matches(svNum)
  {
    Start();
    Around73();
    hide State;
  }

  lemma {:induction false} AllMatch(svNum: int)
    requires 1 <= svNum <= 37
    ensures Matches(svNum)
  {
    hide *;
    if svNum == 1 || svNum == 2 || svNum == 3 || svNum == 4 {
      Satellites1015(svNum);
    } else if svNum == 5 || svNum == 6 {
      Satellites1005(svNum);
    } else if svNum == 7 || svNum == 8 || svNum == 9 {
      Satellites882(svNum);
    } else if svNum == 10 || svNum == 11 || svNum == 12 || svNum == 13 || svNum == 14 || svNum == 15 || svNum == 16 {
      Satellites765(svNum);
    } else if svNum == 17 || svNum == 18 || svNum == 19 || svNum == 20 || svNum == 21 || svNum == 22 {
      Satellites549(svNum);
    } else if svNum == 23 || svNum == 24 || svNum == 25 || svNum == 26 || svNum == 27 || svNum == 28 {
      Satellites507(svNum);
    } else if svNum == 29 || svNum == 30 || svNum == 31 || svNum == 32 || svNum == 33 {
      Satellites160(svNum);
    } else if svNum == 34 || svNum == 35 || svNum == 36 || svNum == 37 {
      Satellites73(svNum);
    }
  }

  lemma {:induction false} NextAdds(s: bv10, t: bv10)
    ensures Next(s ^ t) == Next(s) ^ Next(t)
  {}

  /** A pair of words that adds up to a third goes on doing so. */
  lemma {:induction false} PairsGoOn(a: nat, b: nat, p: nat, n: nat)
    requires State(a) ^ State(b) == State(p)
    ensures State(n + a) ^ State(n + b) == State(n + p)
  {
    hide Next, State;
    if n > 0 {
      PairsGoOn(a, b, p, n - 1);
      StateNext(n - 1 + a);
      StateNext(n - 1 + b);
      StateNext(n - 1 + p);
      NextAdds(State(n - 1 + a), State(n - 1 + b));
    }
  }

  lemma {:induction false} LowestAdds(s: bv10, t: bv10)
    ensures Chip10(s ^ t, 0) == (Chip10(s, 0) != Chip10(t, 0))
  {}

  lemma {:induction false} ChipsAdd(x: bv8, y: bv8, z: bv8)
    requires x <= 1 && y <= 1 && z <= 1 && ((x == 1) != (y == 1)) == (z == 1)
    ensures x ^ y == z
  {}

  /** Two stages of G2 together are G2 some chips later. */
  lemma {:induction false} PairIsLater(a: nat, b: nat, p: nat, n: nat)
    requires State(a) ^ State(b) == State(p)
    ensures G2(n + a) ^ G2(n + b) == G2(n + p)
  {
    hide Chip10, State, G2;
    PairsGoOn(a, b, p, n);
    LowestAdds(State(n + a), State(n + b));
    StateShows(n + a, 0);
    StateShows(n + b, 0);
    StateShows(n + p, 0);
    ChipsAdd(G2(n + a), G2(n + b), G2(n + p));
  }

  /** G2 repeats itself after 1023 chips. */
  lemma {:induction false} G2Repeats(n: nat)
    ensures G2(n + 1023) == G2(n)
  {
    hide Chip10, State, G2;
    RegisterRepeats(n);
    StateShows(n + 1023, 0);
    StateShows(n, 0);
    SameChip(G2(n + 1023), G2(n));
  }

  lemma {:induction false} SameChip(x: bv8, y: bv8)
    requires x <= 1 && y <= 1 && ((x == 1) == (y == 1))
    ensures x == y
  {}

  lemma {:induction false} RegisterRepeats(n: nat)
    ensures State(n + 1023) == State(n)
  {
    if n == 0 {
      Around1023();
      StateNext(0);
    } else {
      RegisterRepeats(n - 1);
      StateNext(n - 1);
      StateNext(n + 1022);
    }
    hide State, Next;
  }

  /** G2 as the satellite has it, so many chips late; before the first of them, the end of the last period. */
  ghost function Late(svNum: int, n: nat): bv8
    requires 1 <= svNum <= 37
  {
    if n >= Delay(svNum) then G2(n - Delay(svNum)) else G2(n + 1023 - Delay(svNum))
  }

  /** The chip of a satellite is G1 and G2 delayed by the chips of the interface specification. */
  lemma {:induction false} ChipIsDelayed(svNum: int, n: nat)
    requires 1 <= svNum <= 37
    ensures Chip(svNum, n) == G1(n) ^ Late(svNum, n)
  {
    hide *;
    ChipIs(svNum, n);
    PairIsLate(svNum, n);
    XorAssoc(G1(n), G2(n + 10 - Taps(svNum).0), G2(n + 10 - Taps(svNum).1));
  }

  lemma {:induction false} ChipIs(svNum: int, n: nat)
    requires 1 <= svNum <= 37
    ensures Chip(svNum, n) == G1(n) ^ G2(n + 10 - Taps(svNum).0) ^ G2(n + 10 - Taps(svNum).1)
  {
    hide G1, G2, Taps;
  }

  lemma {:induction false} MatchMeans(svNum: int)
    requires 1 <= svNum <= 37
    ensures var t := Taps(svNum); State(10 - t.0) ^ State(10 - t.1) == State(1023 - Delay(svNum))
  {
    AllMatch(svNum);
    hide State, Taps, Delay;
  }

  lemma {:induction false} PairIsLate(svNum: int, n: nat)
    requires 1 <= svNum <= 37
    ensures G2(n + 10 - Taps(svNum).0) ^ G2(n + 10 - Taps(svNum).1) == Late(svNum, n)
  {
    MatchMeans(svNum);
    LateIs(svNum, n);
    hide *;
    var t, d := Taps(svNum), Delay(svNum);
    PairIsLater(10 - t.0, 10 - t.1, 1023 - d, n);
    assert n + (10 - t.0) == n + 10 - t.0 && n + (10 - t.1) == n + 10 - t.1;
  }

  lemma {:induction false} LateIs(svNum: int, n: nat)
    requires 1 <= svNum <= 37
    ensures Late(svNum, n) == G2(n + (1023 - Delay(svNum)))
  {
    if n >= Delay(svNum) {
      G2Repeats(n - Delay(svNum));
      assert n - Delay(svNum) + 1023 == n + (1023 - Delay(svNum));
    }
    hide G2, Delay;
  }

  lemma {:induction false} XorAssoc(a: bv8, b: bv8, c: bv8)
    ensures a ^ b ^ c == a ^ (b ^ c)
  {}
}
