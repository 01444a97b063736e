/**
  * The powers of A that decide its order modulo M, computed by repeated squaring.
  * Each line carries the quotient of one division by M, so that the verifier
  * only has to multiply two literals.
  */
module Certificate {
  import opened Words
  import opened Modular

  const N: nat := 2147483646   // M - 1 == 2 * 3 * 3 * 7 * 11 * 31 * 151 * 331

  lemma Double(x: Residue, e: nat, r: nat, q: nat, t: nat)
    requires Pow(x, e) == r && r * r == q * M + t && t < M
    ensures Pow(x, 2 * e) == t
  {
    PowAdd(x, e, e);
    DivModUnique(r * r, M, q, t);
  }

  lemma Next(x: Residue, e: nat, r: nat, q: nat, t: nat)
    requires Pow(x, e) == r && r * x == q * M + t && t < M
    ensures Pow(x, e + 1) == t
  {
    MulCommutes(r, x);
    DivModUnique(r * x, M, q, t);
  }

  lemma PowersOfA(x: Residue)
    requires x == 16807
    ensures Pow(x, 331) == 555860589
    ensures Pow(x, 42966) == 1730649443
  {
    PowOne(x);
    Double(x, 1, 16807, 0, 282475249);
    Double(x, 2, 282475249, 37156169, 984943658); Next(x, 4, 984943658, 7708, 1144108930);
    Double(x, 5, 1144108930, 609543753, 2007237709);
    Double(x, 10, 2007237709, 1876150827, 143542612);
    Double(x, 20, 143542612, 9594709, 784558821); Next(x, 40, 784558821, 6140, 530511967);
    Double(x, 41, 530511967, 131057085, 269220094);
    Double(x, 82, 269220094, 33750878, 436476770); Next(x, 164, 436476770, 3416, 60935238);
    Double(x, 165, 60935238, 1729048, 925238588); Next(x, 330, 925238588, 7241, 555860589);
    Double(x, 41, 530511967, 131057085, 269220094); Next(x, 82, 269220094, 2107, 34075629);
    Double(x, 83, 34075629, 540701, 1936329094); Next(x, 166, 1936329094, 15154, 915896220);
    Double(x, 167, 915896220, 390627368, 959637304); Next(x, 334, 959637304, 7510, 1021979358);
    Double(x, 335, 1021979358, 486356117, 302173465); Next(x, 670, 302173465, 2364, 1978084747);
    Double(x, 671, 1978084747, 1822048457, 864971330);
    Double(x, 1342, 864971330, 348396320, 1846989860); Next(x, 2684, 1846989860, 14455, 482459635);
    Double(x, 2685, 482459635, 108390720, 717777385);
    Double(x, 5370, 717777385, 239910732, 707638621); Next(x, 10740, 707638621, 5538, 517866061);
    Double(x, 10741, 517866061, 124883492, 285400397); Next(x, 21482, 285400397, 2233, 1393488628);
    Double(x, 21483, 1393488628, 904226003, 1730649443);
  }

  lemma PowersOfY(x: Residue)
    requires x == 1730649443
    ensures Pow(x, 151) == 759513457
    ensures Pow(x, 331) == 1013763951
  {
    PowOne(x);
    Double(x, 1, 1730649443, 1394724238, 1376674263);
    Double(x, 2, 1376674263, 882536185, 1233326474);
    Double(x, 4, 1233326474, 708314679, 1386718363); Next(x, 8, 1386718363, 1117551402, 2046898715);
    Double(x, 9, 2046898715, 1951025031, 508483168);
    Double(x, 18, 508483168, 120399115, 1563543819); Next(x, 36, 1563543819, 1260054409, 1800693194);
    Double(x, 37, 1800693194, 1509904852, 721966392); Next(x, 74, 721966392, 581830150, 1722962606);
    Double(x, 75, 1722962606, 1382362164, 252779128); Next(x, 150, 252779128, 203713801, 759513457);
    Double(x, 2, 1376674263, 882536185, 1233326474); Next(x, 4, 1233326474, 993933424, 1018536654);
    Double(x, 5, 1018536654, 483084896, 1268820004);
    Double(x, 10, 1268820004, 749670063, 1612600255);
    Double(x, 20, 1612600255, 1210942670, 1146547535); Next(x, 40, 1146547535, 923998585, 1682133510);
    Double(x, 41, 1682133510, 1317622674, 133508022);
    Double(x, 82, 133508022, 8300129, 642862021); Next(x, 164, 642862021, 518080219, 432825610);
    Double(x, 165, 432825610, 87236058, 688128574); Next(x, 330, 688128574, 554560373, 1013763951);
  }

  lemma PowersOfB(x: Residue)
    requires x == 555860589
    ensures Pow(x, 151) == 560223525
  {
    PowOne(x);
    Double(x, 1, 555860589, 143880487, 1448530832);
    Double(x, 2, 1448530832, 977069871, 1305712687);
    Double(x, 4, 1305712687, 793899233, 759417218); Next(x, 8, 759417218, 196569646, 1812642440);
    Double(x, 9, 1812642440, 1530010540, 901514220);
    Double(x, 18, 901514220, 378455915, 289286395); Next(x, 36, 289286395, 74879688, 441924519);
    Double(x, 37, 441924519, 90942383, 181670560); Next(x, 74, 181670560, 47024108, 1540797964);
    Double(x, 75, 1540797964, 1105507075, 661242771); Next(x, 150, 661242771, 171157902, 560223525);
  }

  lemma PowersOfZ(x: Residue)
    requires x == 560223525
    ensures Pow(x, 126) == 369197359
    ensures Pow(x, 341) == 430777829
  {
    PowOne(x);
    Double(x, 1, 560223525, 146147980, 871342565); Next(x, 2, 871342565, 227310975, 1650715800);
    Double(x, 3, 1650715800, 1268863051, 64613003); Next(x, 6, 64613003, 16855878, 1940668509);
    Double(x, 7, 1940668509, 1753770869, 61803838); Next(x, 14, 61803838, 16123039, 1390445717);
    Double(x, 15, 1390445717, 900281263, 1930637928); Next(x, 30, 1930637928, 503654026, 942143378);
    Double(x, 31, 942143378, 413336858, 1451889758); Next(x, 62, 1451889758, 378760881, 67343943);
    Double(x, 63, 67343943, 2111870, 369197359);
    Double(x, 1, 560223525, 146147980, 871342565);
    Double(x, 2, 871342565, 353547682, 51022971); Next(x, 4, 51022971, 13310587, 755121986);
    Double(x, 5, 755121986, 265524356, 1350377864);
    Double(x, 10, 1350377864, 849142845, 1976646781); Next(x, 20, 1976646781, 515656558, 1558415999);
    Double(x, 21, 1558415999, 1130933140, 1938806421);
    Double(x, 42, 1938806421, 1750406967, 883460592); Next(x, 84, 883460592, 230472258, 1906661874);
    Double(x, 85, 1906661874, 1692846186, 443871534);
    Double(x, 170, 443871534, 91745489, 1381994773); Next(x, 340, 1381994773, 360527068, 430777829);
  }

  lemma PowersOfW(x: Residue)
    requires x == 369197359
    ensures Pow(x, 11) == 16384
    ensures Pow(x, 31) == 298192073
  {
    PowOne(x);
    Double(x, 1, 369197359, 63472748, 1532422925);
    Double(x, 2, 1532422925, 1093521724, 1136308197); Next(x, 4, 1136308197, 195355147, 1802670614);
    Double(x, 5, 1802670614, 1513222858, 757533870); Next(x, 10, 757533870, 130235918, 16384);
    Double(x, 1, 369197359, 63472748, 1532422925); Next(x, 2, 1532422925, 263455555, 707245990);
    Double(x, 3, 707245990, 232922327, 2117393531); Next(x, 6, 2117393531, 364024238, 1392248643);
    Double(x, 7, 1392248643, 902617482, 1844024595); Next(x, 14, 1844024595, 317026400, 737763805);
    Double(x, 15, 737763805, 253457311, 1382984808); Next(x, 30, 1382984808, 237764017, 298192073);
  }

  lemma PowersOfX(x: Residue)
    requires x == 430777829
    ensures Pow(x, 18) == 1600955193
    ensures Pow(x, 42) == 634005911
    ensures Pow(x, 63) == 2147483646
    ensures Pow(x, 126) == 1
  {
    PowOne(x);
    Double(x, 1, 430777829, 86412549, 2084867038);
    Double(x, 2, 2084867038, 2024076212, 587188280);
    Double(x, 4, 587188280, 160555390, 1706651070); Next(x, 8, 1706651070, 342348331, 394883873);
    Double(x, 9, 394883873, 72612088, 1600955193);
    Double(x, 2, 2084867038, 2024076212, 587188280); Next(x, 4, 587188280, 117787948, 328957764);
    Double(x, 5, 328957764, 50390702, 1990029502);
    Double(x, 10, 1990029502, 1844119942, 278779530); Next(x, 20, 278779530, 55922214, 634005912);
    Double(x, 21, 634005912, 187178839, 634005911);
    Double(x, 1, 430777829, 86412549, 2084867038); Next(x, 2, 2084867038, 418217152, 1568387158);
    Double(x, 3, 1568387158, 1145451459, 744525991); Next(x, 6, 744525991, 149349351, 1074490442);
    Double(x, 7, 1074490442, 537619791, 473297587); Next(x, 14, 473297587, 94941867, 200649674);
    Double(x, 15, 200649674, 18747659, 554273903); Next(x, 30, 554273903, 111185437, 863647848);
    Double(x, 31, 863647848, 347330982, 1413579750); Next(x, 62, 1413579750, 283559232, 2147483646);
    Double(x, 63, 2147483646, 2147483645, 1);
  }
}
