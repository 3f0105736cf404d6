/** The three windows of the LPC analysis, and the signals for which the rescaling of
    Autocorr cannot be fooled under them. */
module WindowTables {
  import opened FixedPoint
  import opened Autocorrelation

  datatype Table = Window200 | Window160 | Window232

  /** window_200_40, twenty samples a row. */
  function Row200A(i: nat): (r: seq<Word16>)
    ensures |r| == 20
  {
    if i == 0 then 
      [2621, 2623, 2629, 2638, 2651, 2668, 2689, 2713, 2741, 2772,
       2808, 2847, 2890, 2936, 2986, 3040, 3097, 3158, 3223, 3291]
    else if i == 1 then 
      [3363, 3438, 3517, 3599, 3685, 3774, 3867, 3963, 4063, 4166,
       4272, 4382, 4495, 4611, 4731, 4853, 4979, 5108, 5240, 5376]
    else if i == 2 then 
      [5514, 5655, 5800, 5947, 6097, 6250, 6406, 6565, 6726, 6890,
       7057, 7227, 7399, 7573, 7750, 7930, 8112, 8296, 8483, 8672]
    else 
      [8863, 9057, 9252, 9450, 9650, 9852, 10055, 10261, 10468, 10677,
       10888, 11101, 11315, 11531, 11748, 11967, 12187, 12409, 12632, 12856]
  }

  function Row200B(i: nat): (r: seq<Word16>)
    ensures |r| == 20
  {
    if i == 0 then 
      [13082, 13308, 13536, 13764, 13994, 14225, 14456, 14688, 14921, 15155,
       15389, 15624, 15859, 16095, 16331, 16568, 16805, 17042, 17279, 17516]
    else if i == 1 then 
      [17754, 17991, 18228, 18465, 18702, 18939, 19175, 19411, 19647, 19882,
       20117, 20350, 20584, 20816, 21048, 21279, 21509, 21738, 21967, 22194]
    else if i == 2 then 
      [22420, 22644, 22868, 23090, 23311, 23531, 23749, 23965, 24181, 24394,
       24606, 24816, 25024, 25231, 25435, 25638, 25839, 26037, 26234, 26428]
    else 
      [26621, 26811, 26999, 27184, 27368, 27548, 27727, 27903, 28076, 28247,
       28415, 28581, 28743, 28903, 29061, 29215, 29367, 29515, 29661, 29804]
  }

  function Row200C(i: nat): (r: seq<Word16>)
    ensures |r| == 20
  {
    if i == 0 then 
      [29944, 30081, 30214, 30345, 30472, 30597, 30718, 30836, 30950, 31062,
       31170, 31274, 31376, 31474, 31568, 31659, 31747, 31831, 31911, 31988]
    else if i == 1 then 
      [32062, 32132, 32198, 32261, 32320, 32376, 32428, 32476, 32521, 32561,
       32599, 32632, 32662, 32688, 32711, 32729, 32744, 32755, 32763, 32767]
    else if i == 2 then 
      [32767, 32741, 32665, 32537, 32359, 32129, 31850, 31521, 31143, 30716,
       30242, 29720, 29151, 28538, 27879, 27177, 26433, 25647, 24821, 23957]
    else 
      [23055, 22117, 21145, 20139, 19102, 18036, 16941, 15820, 14674, 13505,
       12315, 11106, 9879, 8637, 7381, 6114, 4838, 3554, 2264, 971]
  }

  /** window_160_80, twenty samples a row. */
  function Row160A(i: nat): (r: seq<Word16>)
    ensures |r| == 20
  {
    if i == 0 then 
      [2621, 2624, 2633, 2648, 2668, 2695, 2727, 2765, 2809, 2859,
       2915, 2976, 3043, 3116, 3194, 3279, 3368, 3464, 3565, 3671]
    else if i == 1 then 
      [3783, 3900, 4023, 4151, 4285, 4423, 4567, 4716, 4870, 5029,
       5193, 5362, 5535, 5714, 5897, 6084, 6277, 6473, 6674, 6880]
    else if i == 2 then 
      [7089, 7303, 7521, 7742, 7968, 8197, 8430, 8667, 8907, 9151,
       9398, 9648, 9902, 10158, 10417, 10680, 10945, 11212, 11482, 11755]
    else 
      [12030, 12307, 12586, 12867, 13150, 13435, 13722, 14010, 14299, 14590,
       14882, 15175, 15469, 15764, 16060, 16356, 16653, 16950, 17248, 17546]
  }

  function Row160B(i: nat): (r: seq<Word16>)
    ensures |r| == 20
  {
    if i == 0 then 
      [17844, 18141, 18439, 18736, 19033, 19330, 19625, 19920, 20214, 20507,
       20799, 21090, 21380, 21668, 21954, 22239, 22522, 22803, 23083, 23360]
    else if i == 1 then 
      [23635, 23907, 24177, 24445, 24710, 24972, 25231, 25488, 25741, 25991,
       26238, 26482, 26722, 26959, 27192, 27422, 27647, 27869, 28087, 28300]
    else if i == 2 then 
      [28510, 28715, 28916, 29113, 29305, 29493, 29676, 29854, 30028, 30197,
       30361, 30519, 30673, 30822, 30966, 31105, 31238, 31366, 31489, 31606]
    else 
      [31718, 31825, 31926, 32021, 32111, 32195, 32273, 32346, 32413, 32475,
       32530, 32580, 32624, 32662, 32695, 32721, 32742, 32756, 32765, 32767]
  }

  function Row160C(i: nat): (r: seq<Word16>)
    ensures |r| == 20
  {
    if i == 0 then 
      [32767, 32756, 32720, 32661, 32578, 32471, 32341, 32188, 32012, 31813,
       31592, 31349, 31084, 30798, 30492, 30165, 29818, 29453, 29068, 28666]
    else if i == 1 then 
      [28247, 27810, 27358, 26891, 26408, 25913, 25404, 24883, 24350, 23807,
       23255, 22693, 22124, 21548, 20965, 20378, 19786, 19191, 18593, 17994]
    else if i == 2 then 
      [17395, 16796, 16199, 15604, 15012, 14424, 13842, 13265, 12696, 12135,
       11582, 11039, 10507, 9986, 9477, 8981, 8499, 8031, 7579, 7143]
    else 
      [6723, 6321, 5937, 5571, 5225, 4898, 4591, 4305, 4041, 3798,
       3577, 3378, 3202, 3048, 2918, 2812, 2729, 2669, 2633, 2621]
  }

  /** window_232_8, twenty samples a row. */
  function Row232A(i: nat): (r: seq<Word16>)
    ensures |r| == 20
  {
    if i == 0 then 
      [2621, 2623, 2627, 2634, 2644, 2656, 2671, 2689, 2710, 2734,
       2760, 2789, 2821, 2855, 2893, 2933, 2975, 3021, 3069, 3120]
    else if i == 1 then 
      [3173, 3229, 3288, 3350, 3414, 3481, 3550, 3622, 3697, 3774,
       3853, 3936, 4021, 4108, 4198, 4290, 4385, 4482, 4582, 4684]
    else if i == 2 then 
      [4788, 4895, 5004, 5116, 5230, 5346, 5464, 5585, 5708, 5833,
       5960, 6090, 6221, 6355, 6491, 6629, 6769, 6910, 7054, 7200]
    else 
      [7348, 7498, 7649, 7803, 7958, 8115, 8274, 8434, 8597, 8761,
       8926, 9093, 9262, 9432, 9604, 9778, 9952, 10129, 10306, 10485]
  }

  function Row232B(i: nat): (r: seq<Word16>)
    ensures |r| == 20
  {
    if i == 0 then 
      [10665, 10847, 11030, 11214, 11399, 11586, 11773, 11962, 12152, 12342,
       12534, 12727, 12920, 13115, 13310, 13506, 13703, 13901, 14099, 14298]
    else if i == 1 then 
      [14497, 14698, 14898, 15100, 15301, 15504, 15706, 15909, 16112, 16316,
       16520, 16724, 16928, 17132, 17337, 17541, 17746, 17950, 18155, 18359]
    else if i == 2 then 
      [18564, 18768, 18972, 19175, 19379, 19582, 19785, 19987, 20189, 20390,
       20591, 20792, 20992, 21191, 21390, 21588, 21785, 21981, 22177, 22372]
    else 
      [22566, 22759, 22951, 23143, 23333, 23522, 23710, 23897, 24083, 24268,
       24451, 24633, 24814, 24994, 25172, 25349, 25525, 25699, 25871, 26042]
  }

  function Row232C(i: nat): (r: seq<Word16>)
    ensures |r| == 20
  {
    if i == 0 then 
      [26212, 26380, 26546, 26711, 26874, 27035, 27195, 27353, 27509, 27664,
       27816, 27967, 28115, 28262, 28407, 28550, 28691, 28830, 28967, 29102]
    else if i == 1 then 
      [29234, 29365, 29493, 29619, 29743, 29865, 29985, 30102, 30217, 30330,
       30440, 30548, 30654, 30757, 30858, 30956, 31052, 31146, 31237, 31326]
    else if i == 2 then 
      [31412, 31495, 31576, 31655, 31730, 31804, 31874, 31942, 32008, 32071,
       32131, 32188, 32243, 32295, 32345, 32392, 32436, 32477, 32516, 32552]
    else 
      [32585, 32615, 32643, 32668, 32690, 32709, 32726, 32740, 32751, 32759,
       32765, 32767, 32767, 32097, 30112, 26895, 22576, 17333, 11380, 4962]
  }

  function Row(t: Table, i: nat): (r: seq<Word16>)
    requires i < 12
    ensures |r| == 20
  {
    match t
    case Window200 => if i < 4 then Row200A(i) else if i < 8 then Row200B(i - 4) else Row200C(i - 8)
    case Window160 => if i < 4 then Row160A(i) else if i < 8 then Row160B(i - 4) else Row160C(i - 8)
    case Window232 => if i < 4 then Row232A(i) else if i < 8 then Row232B(i - 4) else Row232C(i - 8)
  }

  function Samples(t: Table): Signal { seq(240, j requires 0 <= j < 240 => Row(t, j / 20)[j % 20]) }

  /** The largest sample of each row. */
  function Cap(t: Table, i: nat): nat
    requires i < 12
  {
    match t
    case Window200 => [3291, 5376, 8672, 12856, 17516, 22194, 26428, 29804, 31988, 32767, 32767, 23055][i]
    case Window160 => [3671, 6880, 11755, 17546, 23360, 28300, 31606, 32767, 32767, 28247, 17395, 6723][i]
    case Window232 => [3120, 4684, 7200, 10485, 14298, 18359, 22372, 26042, 29102, 31326, 32552, 32767][i]
  }

  predicate UpTo(r: seq<Word16>, m: nat)
    requires |r| == 20
  {
    && UpTo5(r[0], r[1], r[2], r[3], r[4], m) && UpTo5(r[5], r[6], r[7], r[8], r[9], m)
    && UpTo5(r[10], r[11], r[12], r[13], r[14], m) && UpTo5(r[15], r[16], r[17], r[18], r[19], m)
  }

  predicate UpTo5(a: Word16, b: Word16, c: Word16, d: Word16, e: Word16, m: nat) {
    0 <= a <= m && 0 <= b <= m && 0 <= c <= m && 0 <= d <= m && 0 <= e <= m
  }

  lemma EachUpTo(r: seq<Word16>, m: nat, j: nat)
    requires |r| == 20 && j < 20 && UpTo(r, m)
    ensures 0 <= r[j] <= m
  {
  }

  lemma Capped200At0()
    ensures UpTo(Row200A(0), 3291)
  {
  }

  lemma Capped200At1()
    ensures UpTo(Row200A(1), 5376)
  {
  }

  lemma Capped200At2()
    ensures UpTo(Row200A(2), 8672)
  {
  }

  lemma Capped200At3()
    ensures UpTo(Row200A(3), 12856)
  {
  }

  lemma Capped200A(i: nat)
    requires i < 4
    ensures UpTo(Row200A(i), Cap(Window200, i + 0))
  {
    hide UpTo, Row200A;
    if i == 0 { Capped200At0(); } else if i == 1 { Capped200At1(); }
    else if i == 2 { Capped200At2(); } else { Capped200At3(); }
  }

  lemma Capped200At4()
    ensures UpTo(Row200B(0), 17516)
  {
  }

  lemma Capped200At5()
    ensures UpTo(Row200B(1), 22194)
  {
  }

  lemma Capped200At6()
    ensures UpTo(Row200B(2), 26428)
  {
  }

  lemma Capped200At7()
    ensures UpTo(Row200B(3), 29804)
  {
  }

  lemma Capped200B(i: nat)
    requires i < 4
    ensures UpTo(Row200B(i), Cap(Window200, i + 4))
  {
    hide UpTo, Row200B;
    if i == 0 { Capped200At4(); } else if i == 1 { Capped200At5(); }
    else if i == 2 { Capped200At6(); } else { Capped200At7(); }
  }

  lemma Capped200At8()
    ensures UpTo(Row200C(0), 31988)
  {
  }

  lemma Capped200At9()
    ensures UpTo(Row200C(1), 32767)
  {
  }

  lemma Capped200At10()
    ensures UpTo(Row200C(2), 32767)
  {
  }

  lemma Capped200At11()
    ensures UpTo(Row200C(3), 23055)
  {
  }

  lemma Capped200C(i: nat)
    requires i < 4
    ensures UpTo(Row200C(i), Cap(Window200, i + 8))
  {
    hide UpTo, Row200C;
    if i == 0 { Capped200At8(); } else if i == 1 { Capped200At9(); }
    else if i == 2 { Capped200At10(); } else { Capped200At11(); }
  }

  lemma Capped160At0()
    ensures UpTo(Row160A(0), 3671)
  {
  }

  lemma Capped160At1()
    ensures UpTo(Row160A(1), 6880)
  {
  }

  lemma Capped160At2()
    ensures UpTo(Row160A(2), 11755)
  {
  }

  lemma Capped160At3()
    ensures UpTo(Row160A(3), 17546)
  {
  }

  lemma Capped160A(i: nat)
    requires i < 4
    ensures UpTo(Row160A(i), Cap(Window160, i + 0))
  {
    hide UpTo, Row160A;
    if i == 0 { Capped160At0(); } else if i == 1 { Capped160At1(); }
    else if i == 2 { Capped160At2(); } else { Capped160At3(); }
  }

  lemma Capped160At4()
    ensures UpTo(Row160B(0), 23360)
  {
  }

  lemma Capped160At5()
    ensures UpTo(Row160B(1), 28300)
  {
  }

  lemma Capped160At6()
    ensures UpTo(Row160B(2), 31606)
  {
  }

  lemma Capped160At7()
    ensures UpTo(Row160B(3), 32767)
  {
  }

  lemma Capped160B(i: nat)
    requires i < 4
    ensures UpTo(Row160B(i), Cap(Window160, i + 4))
  {
    hide UpTo, Row160B;
    if i == 0 { Capped160At4(); } else if i == 1 { Capped160At5(); }
    else if i == 2 { Capped160At6(); } else { Capped160At7(); }
  }

  lemma Capped160At8()
    ensures UpTo(Row160C(0), 32767)
  {
  }

  lemma Capped160At9()
    ensures UpTo(Row160C(1), 28247)
  {
  }

  lemma Capped160At10()
    ensures UpTo(Row160C(2), 17395)
  {
  }

  lemma Capped160At11()
    ensures UpTo(Row160C(3), 6723)
  {
  }

  lemma Capped160C(i: nat)
    requires i < 4
    ensures UpTo(Row160C(i), Cap(Window160, i + 8))
  {
    hide UpTo, Row160C;
    if i == 0 { Capped160At8(); } else if i == 1 { Capped160At9(); }
    else if i == 2 { Capped160At10(); } else { Capped160At11(); }
  }

  lemma Capped232At0()
    ensures UpTo(Row232A(0), 3120)
  {
  }

  lemma Capped232At1()
    ensures UpTo(Row232A(1), 4684)
  {
  }

  lemma Capped232At2()
    ensures UpTo(Row232A(2), 7200)
  {
  }

  lemma Capped232At3()
    ensures UpTo(Row232A(3), 10485)
  {
  }

  lemma Capped232A(i: nat)
    requires i < 4
    ensures UpTo(Row232A(i), Cap(Window232, i + 0))
  {
    hide UpTo, Row232A;
    if i == 0 { Capped232At0(); } else if i == 1 { Capped232At1(); }
    else if i == 2 { Capped232At2(); } else { Capped232At3(); }
  }

  lemma Capped232At4()
    ensures UpTo(Row232B(0), 14298)
  {
  }

  lemma Capped232At5()
    ensures UpTo(Row232B(1), 18359)
  {
  }

  lemma Capped232At6()
    ensures UpTo(Row232B(2), 22372)
  {
  }

  lemma Capped232At7()
    ensures UpTo(Row232B(3), 26042)
  {
  }

  lemma Capped232B(i: nat)
    requires i < 4
    ensures UpTo(Row232B(i), Cap(Window232, i + 4))
  {
    hide UpTo, Row232B;
    if i == 0 { Capped232At4(); } else if i == 1 { Capped232At5(); }
    else if i == 2 { Capped232At6(); } else { Capped232At7(); }
  }

  lemma Capped232At8()
    ensures UpTo(Row232C(0), 29102)
  {
  }

  lemma Capped232At9()
    ensures UpTo(Row232C(1), 31326)
  {
  }

  lemma Capped232At10()
    ensures UpTo(Row232C(2), 32552)
  {
  }

  lemma Capped232At11()
    ensures UpTo(Row232C(3), 32767)
  {
  }

  lemma Capped232C(i: nat)
    requires i < 4
    ensures UpTo(Row232C(i), Cap(Window232, i + 8))
  {
    hide UpTo, Row232C;
    if i == 0 { Capped232At8(); } else if i == 1 { Capped232At9(); }
    else if i == 2 { Capped232At10(); } else { Capped232At11(); }
  }

  lemma AllCapped(t: Table, i: nat)
    requires i < 12
    ensures UpTo(Row(t, i), Cap(t, i))
  {
    hide UpTo, Cap, Row200A, Row200B, Row200C, Row160A, Row160B, Row160C, Row232A, Row232B, Row232C;
    match t
    case Window200 => if i < 4 { Capped200A(i); } else if i < 8 { Capped200B(i - 4); } else { Capped200C(i - 8); }
    case Window160 => if i < 4 { Capped160A(i); } else if i < 8 { Capped160B(i - 4); } else { Capped160C(i - 8); }
    case Window232 => if i < 4 { Capped232A(i); } else if i < 8 { Capped232B(i - 4); } else { Capped232C(i - 8); }
  }

  // ----- signals of at most half of full scale -----

  predicate HalfScale(x: Signal) { forall j :: 0 <= j < 240 ==> -16384 <= x[j] <= 16384 }

  /** A windowed sample, divided by four, stays within an eighth of the window. */
  lemma QuarteredSample(x: Word16, w: Word16, m: nat)
    requires -16384 <= x <= 16384 && 0 <= w <= m <= 32767
    ensures -(m / 8 + 1) <= Window(x, w) as int / 4 <= m / 8 + 1
  {
    MulMono(x, 16384, w);
    MulMono(-16384, x, w);
    HalvedWindow(x * w, w, m);
  }

  lemma HalvedWindow(p: int, w: Word16, m: nat)
    requires -16384 * (w as int) <= p <= 16384 * (w as int) && 0 <= w <= m <= 32767
    ensures -(m / 8 + 1) <= Wrap16((p + 0x4000) / 0x8000) as int / 4 <= m / 8 + 1
  {
    assert -(w as int) - 1 <= 2 * ((p + 0x4000) / 0x8000) <= w as int + 1;
  }

  /** Bounds on the energy of the first n rows after the first pass. */
  function Total(t: Table, n: nat): int
    requires n <= 12
  {
    match t
    case Window200 =>
      [0, 3394880, 12453460, 35997960, 87711240, 183633240, 337645740, 555974060, 833635580, 1153475600,
       1489019920, 1824564240, 1990682720][n]
    case Window160 =>
      [0, 4213620, 19040040, 62258040, 158530760, 329175580, 579524460, 891732480, 1227276800, 1562821120,
       1812180340, 1906792840, 1920938460][n]
    case Window232 =>
      [0, 3057620, 9925540, 26161560, 60535980, 124474860, 229815360, 386279540, 598310260, 863011140,
       1169712260, 1501010260, 1836554580][n]
  }

  lemma FirstTotal(t: Table)
    ensures Total(t, 0) == 0
  {
  }

  lemma NextTotal(t: Table, n: nat)
    requires n < 12
    ensures var b := Cap(t, n) / 8 + 1;
            Total(t, n) + 20 * Product(b, b) <= Total(t, n + 1)
  {
    if n < 4 { assert n == 0 || n == 1 || n == 2 || n == 3; }
    else if n < 8 { assert n == 4 || n == 5 || n == 6 || n == 7; }
    else { assert n == 8 || n == 9 || n == 10 || n == 11; }
  }

  lemma {:induction false} RowEnergy(y: seq<Word16>, start: nat, k: nat, b: int)
    requires b >= 0 && start + k <= |y| && forall j :: start <= j < start + k ==> -b <= y[j] <= b
    ensures Energy(y, start + k) <= Energy(y, start) + k * Product(b, b)
  {
    hide Product;
    if k > 0 {
      RowEnergy(y, start, k - 1, b);
      EnergyStep(y, start + k - 1);
      SquareWithin(y[start + k - 1], b);
      OneMore(k, Product(b, b));
    }
  }

  lemma OneMore(k: int, c: int)
    ensures k * c == (k - 1) * c + c
  {
  }

  lemma SquareWithin(a: int, b: int)
    requires -b <= a <= b
    ensures Product(a, a) <= Product(b, b)
  {
    MulBounds(a, a, b, b);
  }

  lemma {:induction false} QuarteredEnergy(x: Signal, t: Table, n: nat)
    requires HalfScale(x) && n <= 12
    ensures Energy(Quartered(Windowed(x, Samples(t))), 20 * n) <= Total(t, n)
  {
    hide Energy, Product, Row, Cap, Window, UpTo, Total;
    var y := Quartered(Windowed(x, Samples(t)));
    if n == 0 {
      EnergyStart(y);
      FirstTotal(t);
    } else {
      QuarteredEnergy(x, t, n - 1);
      AllCapped(t, n - 1);
      var b: int := Cap(t, n - 1) / 8 + 1;
      CapInRange(t, n - 1);
      forall j | 20 * (n - 1) <= j < 20 * (n - 1) + 20 ensures -b <= y[j] <= b {
        assert j / 20 == n - 1 && Samples(t)[j] == Row(t, n - 1)[j % 20];
        EachUpTo(Row(t, n - 1), Cap(t, n - 1), j % 20);
        QuarteredSample(x[j], Samples(t)[j], Cap(t, n - 1));
      }
      RowEnergy(y, 20 * (n - 1), 20, b);
      NextTotal(t, n - 1);
    }
  }

  lemma CapInRange(t: Table, i: nat)
    requires i < 12
    ensures Cap(t, i) <= 32767
  {
  }

  lemma SumFits(t: Table)
    ensures Total(t, 12) < 0x8000_0000
  {
  }

  /** Under each of the three windows a signal of at most half of full scale, as the
      pre-processing delivers it, always gets its exact energy. */
  lemma HalfScaleIsExact(x: Signal, t: Table)
    requires HalfScale(x)
    ensures Exact(Scale(Windowed(x, Samples(t))))
  {
    hide Energy, Samples, HalfScale, Scale, Exact, Total;
    QuarteredEnergy(x, t, 12);
    SumFits(t);
    ExactUnlessFooled(Windowed(x, Samples(t)));
  }
}
