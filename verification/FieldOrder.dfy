/**
 The order of the BN254 scalar field is prime.  Each prime of a chain is the certified factor of the next
 one minus one, and the first is small enough for trial division.
 */
module FieldOrder {
  import opened Euclid
  import opened Primality

  /** The order of the scalar field. */
  const ORDER: nat := 21888242871839275222246405745257275088548364400416034343698204186575808495617

  // The chain below it.
  const P4: nat := 13818364434197438864469338081
  const P3: nat := 65865678001877903
  const P2: nat := 639533339
  const P1: nat := 1637

  // The bases of the certificates.
  const ORDER_BASE: nat := 18810536960267738281623319138564098156538132287104634306360290224932305588168
  const P4_BASE: nat := 7935281130018080704632618576
  const P3_BASE: nat := 8595199928015311
  const P2_BASE: nat := 248876995
  const P1_BASE: nat := 16

  lemma P1Step(e: nat, y: int, bit: int, z: int)
    requires Power(P1, P1_BASE, e, y) && (bit == 0 || bit == 1)
    requires bit == 0 ==> z == y * y % 1637
    requires bit == 1 ==> z == y * y * 16 % 1637
    ensures Power(P1, P1_BASE, 2 * e + bit, z)
  {
    SquareAndMultiply(P1, P1_BASE, e, y, bit, z);
  }

  lemma P1Power()
    ensures Power(P1, P1_BASE, 409, 1)
  {
    hide Power;
    PowerOne(P1, P1_BASE);
    P1Step(1, 16, 1, 822);
    P1Step(3, 822, 0, 1240);
    P1Step(6, 1240, 0, 457);
    P1Step(12, 457, 1, 467);
    P1Step(25, 467, 1, 977);
    P1Step(51, 977, 0, 158);
    P1Step(102, 158, 0, 409);
    P1Step(204, 409, 1, 1);
  }

  lemma P1IsPrime()
    ensures Prime(P1)
  {
    assert NoFactorTo(409, 10);
    TrialDivision(409, 20);
    hide Prime, Power;
    P1Power();
    PrimeByFactor(P1, 409, P1_BASE, 764, 0, 4);
  }

  lemma P2Step(e: nat, y: int, bit: int, z: int)
    requires Power(P2, P2_BASE, e, y) && (bit == 0 || bit == 1)
    requires bit == 0 ==> z == y * y % 639533339
    requires bit == 1 ==> z == y * y * 248876995 % 639533339
    ensures Power(P2, P2_BASE, 2 * e + bit, z)
  {
    SquareAndMultiply(P2, P2_BASE, e, y, bit, z);
  }

  lemma P2Power()
    ensures Power(P2, P2_BASE, P1, 1)
  {
    hide Power;
    PowerOne(P2, P2_BASE);
    P2Step(1, 248876995, 1, 257756831);
    P2Step(3, 257756831, 0, 448608357);
    P2Step(6, 448608357, 0, 461042979);
    P2Step(12, 461042979, 1, 605154259);
    P2Step(25, 605154259, 1, 547712976);
    P2Step(51, 547712976, 0, 181348006);
    P2Step(102, 181348006, 0, 343175704);
    P2Step(204, 343175704, 1, 147059079);
    P2Step(409, 147059079, 0, 301238345);
    P2Step(818, 301238345, 1, 1);
  }

  lemma P2IsPrime()
    ensures Prime(P2)
  {
    P1IsPrime();
    hide Prime, Power;
    P2Power();
    PrimeByFactor(P2, P1, P2_BASE, 296391531, 238, 1068);
  }

  lemma P3Step(e: nat, y: int, bit: int, z: int)
    requires Power(P3, P3_BASE, e, y) && (bit == 0 || bit == 1)
    requires bit == 0 ==> z == y * y % 65865678001877903
    requires bit == 1 ==> z == y * y * 8595199928015311 % 65865678001877903
    ensures Power(P3, P3_BASE, 2 * e + bit, z)
  {
    SquareAndMultiply(P3, P3_BASE, e, y, bit, z);
  }

  lemma P3Power()
    ensures Power(P3, P3_BASE, P2, 1)
  {
    hide Power;
    PowerOne(P3, P3_BASE);
    P3Step(1, 8595199928015311, 0, 19226070235069677);
    P3Step(2, 19226070235069677, 0, 56968334197042590);
    P3Step(4, 56968334197042590, 1, 18611656393288241);
    P3Step(9, 18611656393288241, 1, 43734149829486000);
    P3Step(19, 43734149829486000, 0, 48447415136911303);
    P3Step(38, 48447415136911303, 0, 64820389105270256);
    P3Step(76, 64820389105270256, 0, 51329992322973469);
    P3Step(152, 51329992322973469, 0, 61286237417813760);
    P3Step(304, 61286237417813760, 1, 58465146411114843);
    P3Step(609, 58465146411114843, 1, 25160803760737125);
    P3Step(1219, 25160803760737125, 1, 43282835694537230);
    P3Step(2439, 43282835694537230, 1, 17564606142202988);
    P3Step(4879, 17564606142202988, 0, 55317398354378580);
    P3Step(9758, 55317398354378580, 1, 1018752242786798);
    P3Step(19517, 1018752242786798, 0, 12272844760177368);
    P3Step(39034, 12272844760177368, 0, 60491326033384519);
    P3Step(78068, 60491326033384519, 0, 51365274646233044);
    P3Step(156136, 51365274646233044, 0, 35194706668242559);
    P3Step(312272, 35194706668242559, 0, 41777112883480135);
    P3Step(624544, 41777112883480135, 0, 38459179869673960);
    P3Step(1249088, 38459179869673960, 1, 34048583907657784);
    P3Step(2498177, 34048583907657784, 0, 64143099883154873);
    P3Step(4996354, 64143099883154873, 0, 7159896889705541);
    P3Step(9992708, 7159896889705541, 0, 33061215984632264);
    P3Step(19985416, 33061215984632264, 1, 45545585862734603);
    P3Step(39970833, 45545585862734603, 1, 60626625102889057);
    P3Step(79941667, 60626625102889057, 0, 57018535114983506);
    P3Step(159883334, 57018535114983506, 1, 51349957123922359);
    P3Step(319766669, 51349957123922359, 1, 1);
  }

  lemma P3IsPrime()
    ensures Prime(P3)
  {
    P2IsPrime();
    hide Prime, Power;
    P3Power();
    PrimeByFactor(P3, P2, P3_BASE, 39033286818209505, 0, 102990218);
  }

  lemma P4Step(e: nat, y: int, bit: int, z: int)
    requires Power(P4, P4_BASE, e, y) && (bit == 0 || bit == 1)
    requires bit == 0 ==> z == y * y % 13818364434197438864469338081
    requires bit == 1 ==> z == y * y * 7935281130018080704632618576 % 13818364434197438864469338081
    ensures Power(P4, P4_BASE, 2 * e + bit, z)
  {
    SquareAndMultiply(P4, P4_BASE, e, y, bit, z);
  }

  lemma P4Power()
    ensures Power(P4, P4_BASE, P3, 1)
  {
    hide Power;
    PowerOne(P4, P4_BASE);
    P4Step(1, 7935281130018080704632618576, 1, 6024626098376368604520791548);
    P4Step(3, 6024626098376368604520791548, 1, 12956526157738010221657952029);
    P4Step(7, 12956526157738010221657952029, 0, 13033178315209579486208481915);
    P4Step(14, 13033178315209579486208481915, 1, 9317283377009505927246043607);
    P4Step(29, 9317283377009505927246043607, 0, 3487141057479528001213568715);
    P4Step(58, 3487141057479528001213568715, 1, 8970463893610592358603246707);
    P4Step(117, 8970463893610592358603246707, 0, 13047074007182443388793947416);
    P4Step(234, 13047074007182443388793947416, 0, 1735893499133178782183529707);
    P4Step(468, 1735893499133178782183529707, 0, 2277860932176299701036661121);
    P4Step(936, 2277860932176299701036661121, 0, 10456841577218911324352461447);
    P4Step(1872, 10456841577218911324352461447, 0, 11582084072275290222046741408);
    P4Step(3744, 11582084072275290222046741408, 0, 4440869139873206848644823141);
    P4Step(7488, 4440869139873206848644823141, 0, 8368951715619670804580817870);
    P4Step(14976, 8368951715619670804580817870, 0, 9262168650417991593144528480);
    P4Step(29952, 9262168650417991593144528480, 0, 10413093752592839881829586129);
    P4Step(59904, 10413093752592839881829586129, 0, 11541844625233648289585365274);
    P4Step(119808, 11541844625233648289585365274, 1, 4089172793395676412059969189);
    P4Step(239617, 4089172793395676412059969189, 1, 123795530186511610780831045);
    P4Step(479235, 123795530186511610780831045, 1, 3995911146589813549241500956);
    P4Step(958471, 3995911146589813549241500956, 1, 7213163208392189156475395815);
    P4Step(1916943, 7213163208392189156475395815, 1, 3274665168306567780251474939);
    P4Step(3833887, 3274665168306567780251474939, 0, 7783209883449169180516943092);
    P4Step(7667774, 7783209883449169180516943092, 0, 12137052172119357729802499609);
    P4Step(15335548, 12137052172119357729802499609, 0, 753190004820108438227960086);
    P4Step(30671096, 753190004820108438227960086, 0, 9480013504884722808418395875);
    P4Step(61342192, 9480013504884722808418395875, 1, 10310184326597100927003724519);
    P4Step(122684385, 10310184326597100927003724519, 1, 3138503201478530464709256003);
    P4Step(245368771, 3138503201478530464709256003, 0, 12483562629543047011950850809);
    P4Step(490737542, 12483562629543047011950850809, 1, 2281409498763660828057122321);
    P4Step(981475085, 2281409498763660828057122321, 0, 8432267785655359550494713763);
    P4Step(1962950170, 8432267785655359550494713763, 0, 9286782187083334098797683226);
    P4Step(3925900340, 9286782187083334098797683226, 0, 7349931621413274043139007121);
    P4Step(7851800680, 7349931621413274043139007121, 0, 11241010701785258861774228018);
    P4Step(15703601360, 11241010701785258861774228018, 1, 10495543114326162342869356054);
    P4Step(31407202721, 10495543114326162342869356054, 1, 1878424754868214010089219927);
    P4Step(62814405443, 1878424754868214010089219927, 0, 7214738950431482892676211854);
    P4Step(125628810886, 7214738950431482892676211854, 0, 8378849114816027470545259614);
    P4Step(251257621772, 8378849114816027470545259614, 0, 12903809095485579282294832217);
    P4Step(502515243544, 12903809095485579282294832217, 1, 10620567016425678254099014230);
    P4Step(1005030487089, 10620567016425678254099014230, 0, 2552326705477704630885573290);
    P4Step(2010060974178, 2552326705477704630885573290, 0, 93879213923488799007543223);
    P4Step(4020121948356, 93879213923488799007543223, 1, 5861745727356882287855134263);
    P4Step(8040243896713, 5861745727356882287855134263, 1, 5715998367833451257024545553);
    P4Step(16080487793427, 5715998367833451257024545553, 0, 9315829236175563345934962545);
    P4Step(32160975586854, 9315829236175563345934962545, 0, 6932638189365131593329946845);
    P4Step(64321951173708, 6932638189365131593329946845, 1, 3083762274448825405925025177);
    P4Step(128643902347417, 3083762274448825405925025177, 1, 3124199797785987746960266099);
    P4Step(257287804694835, 3124199797785987746960266099, 1, 3057894684126085342478126306);
    P4Step(514575609389671, 3057894684126085342478126306, 0, 3859583265371772333019919582);
    P4Step(1029151218779342, 3859583265371772333019919582, 0, 6246147404744190337875264163);
    P4Step(2058302437558684, 6246147404744190337875264163, 0, 7624688656232388209735739235);
    P4Step(4116604875117368, 7624688656232388209735739235, 1, 5751857602344423908298335459);
    P4Step(8233209750234737, 5751857602344423908298335459, 1, 9228697715789270620358885072);
    P4Step(16466419500469475, 9228697715789270620358885072, 1, 7213377970993644489293477400);
    P4Step(32932839000938951, 7213377970993644489293477400, 1, 1);
  }

  lemma P4IsPrime()
    ensures Prime(P4)
  {
    P3IsPrime();
    hide Prime, Power;
    P4Power();
    PrimeByFactor(P4, P3, P4_BASE, 12281824895882260584345986666, 0, 209796131360);
  }

  lemma OrderStep(e: nat, y: int, bit: int, z: int)
    requires Power(ORDER, ORDER_BASE, e, y) && (bit == 0 || bit == 1)
    requires bit == 0 ==> z == y * y % 21888242871839275222246405745257275088548364400416034343698204186575808495617
    requires bit == 1 ==>
      z == y * y * 18810536960267738281623319138564098156538132287104634306360290224932305588168
        % 21888242871839275222246405745257275088548364400416034343698204186575808495617
    ensures Power(ORDER, ORDER_BASE, 2 * e + bit, z)
  {
    SquareAndMultiply(ORDER, ORDER_BASE, e, y, bit, z);
  }

  lemma OrderPower()
    ensures Power(ORDER, ORDER_BASE, P4, 1)
  {
    hide Power;
    PowerOne(ORDER, ORDER_BASE);
    OrderStep(
      1, 18810536960267738281623319138564098156538132287104634306360290224932305588168, 0,
      9085659581505268874132837132958025132643965648321324883040022263071236657138);
    OrderStep(
      2, 9085659581505268874132837132958025132643965648321324883040022263071236657138, 1,
      4466280092714551160179349833555971636873726671584238519253083836756174798464);
    OrderStep(
      5, 4466280092714551160179349833555971636873726671584238519253083836756174798464, 1,
      7288300720531034751599205128989304360084109032148697596779139568504645333596);
    OrderStep(
      11, 7288300720531034751599205128989304360084109032148697596779139568504645333596, 0,
      16310377356767332269622268890191016455300440121513193467241937482505740628603);
    OrderStep(
      22, 16310377356767332269622268890191016455300440121513193467241937482505740628603, 0,
      18590281345771589829705208461446723116458331097009764652595938196069863742739);
    OrderStep(
      44, 18590281345771589829705208461446723116458331097009764652595938196069863742739, 1,
      3570328402263039533962078793614857179190899238207845654091689123093633975209);
    OrderStep(
      89, 3570328402263039533962078793614857179190899238207845654091689123093633975209, 0,
      21829522974866090339915079862768997321167101142097465178168028730712625951784);
    OrderStep(
      178, 21829522974866090339915079862768997321167101142097465178168028730712625951784, 1,
      8975024199830631580403817344790028304586817291245569138346096813489152012375);
    OrderStep(
      357, 8975024199830631580403817344790028304586817291245569138346096813489152012375, 0,
      12477635325971618052354191063038058034114302262450087294479249184382785493277);
    OrderStep(
      714, 12477635325971618052354191063038058034114302262450087294479249184382785493277, 0,
      18447615490292918398641929924136432563808024318567103194638030164631623810256);
    OrderStep(
      1428, 18447615490292918398641929924136432563808024318567103194638030164631623810256, 1,
      18104796406065173190581331151014028290209456347151045762255637259888157688897);
    OrderStep(
      2857, 18104796406065173190581331151014028290209456347151045762255637259888157688897, 1,
      21666684803943752702775475012001422476902168933601203773733752216641393273098);
    OrderStep(
      5715, 21666684803943752702775475012001422476902168933601203773733752216641393273098, 0,
      12325038706389038246381761560710519680448258137532050165000737203053309415406);
    OrderStep(
      11430, 12325038706389038246381761560710519680448258137532050165000737203053309415406, 0,
      13443253219486778743446513032716218517821584510808286422351206975950466483883);
    OrderStep(
      22860, 13443253219486778743446513032716218517821584510808286422351206975950466483883, 1,
      18921630943640514451582930610101292463930579998447765112770252449495126884321);
    OrderStep(
      45721, 18921630943640514451582930610101292463930579998447765112770252449495126884321, 0,
      16045663229630279971696615233775199517783775118985254723521461749669979446855);
    OrderStep(
      91442, 16045663229630279971696615233775199517783775118985254723521461749669979446855, 0,
      2547026407088552763619132692430582443971622840468111866157668238232522507159);
    OrderStep(
      182884, 2547026407088552763619132692430582443971622840468111866157668238232522507159, 1,
      13743062694132755015284737287163746786210844211481797444674124733201070225471);
    OrderStep(
      365769, 13743062694132755015284737287163746786210844211481797444674124733201070225471, 0,
      9244098531050843115431558922832011640495424303933370476466228638133601123068);
    OrderStep(
      731538, 9244098531050843115431558922832011640495424303933370476466228638133601123068, 0,
      13300055229528809341410542150878921047948950419169675759511858840419127563423);
    OrderStep(
      1463076, 13300055229528809341410542150878921047948950419169675759511858840419127563423, 0,
      15966198756527207259064101724824575278782181261157583397480959684222876843270);
    OrderStep(
      2926152, 15966198756527207259064101724824575278782181261157583397480959684222876843270, 0,
      19085664414308518687655841784555943066259154078927359148592852094240134500743);
    OrderStep(
      5852304, 19085664414308518687655841784555943066259154078927359148592852094240134500743, 1,
      1865602758692113732805214818701321192943896161784096184444957995389216886377);
    OrderStep(
      11704609, 1865602758692113732805214818701321192943896161784096184444957995389216886377, 1,
      13229975654189419262669209642897790818845945731350156547878152497800875978185);
    OrderStep(
      23409219, 13229975654189419262669209642897790818845945731350156547878152497800875978185, 1,
      11352974430176251988274592823686855960615703494006315686385524761056335374967);
    OrderStep(
      46818439, 11352974430176251988274592823686855960615703494006315686385524761056335374967, 1,
      13504382192337108424954703900159866062700347452420558012015396961260868152230);
    OrderStep(
      93636879, 13504382192337108424954703900159866062700347452420558012015396961260868152230, 1,
      5235611639036356051571388123590467036095675066045520218683930058073520986590);
    OrderStep(
      187273759, 5235611639036356051571388123590467036095675066045520218683930058073520986590, 0,
      550906938159101855976358275668510927189310574626814122764122518665448149145);
    OrderStep(
      374547518, 550906938159101855976358275668510927189310574626814122764122518665448149145, 0,
      4083747225853724754498470886113141075487032758838686420768356563111061876420);
    OrderStep(
      749095036, 4083747225853724754498470886113141075487032758838686420768356563111061876420, 1,
      15671089660029164707162126909409246653683633371012789152497710362060241054042);
    OrderStep(
      1498190073, 15671089660029164707162126909409246653683633371012789152497710362060241054042, 1,
      7805783671712377205947414579185362746751821306153595115022089496570147857233);
    OrderStep(
      2996380147, 7805783671712377205947414579185362746751821306153595115022089496570147857233, 1,
      7869451465732257446455653160922000624677206634823476245857754131876678353832);
    OrderStep(
      5992760295, 7869451465732257446455653160922000624677206634823476245857754131876678353832, 1,
      14291071267091833532622934897584375489779684593470876605643369722443630539261);
    OrderStep(
      11985520591, 14291071267091833532622934897584375489779684593470876605643369722443630539261, 1,
      5206338420481943584460466742216969652512666352702347847734674089527760357908);
    OrderStep(
      23971041183, 5206338420481943584460466742216969652512666352702347847734674089527760357908, 1,
      14160780287424993058179533925391007393737551198520438908212350126558230710206);
    OrderStep(
      47942082367, 14160780287424993058179533925391007393737551198520438908212350126558230710206, 0,
      16758323904918100124189908074645916123283625670993575052236993155911919099568);
    OrderStep(
      95884164734, 16758323904918100124189908074645916123283625670993575052236993155911919099568, 0,
      21888083174864775917490206954690418891250255562899195060460029488001577172032);
    OrderStep(
      191768329468, 21888083174864775917490206954690418891250255562899195060460029488001577172032, 1,
      19150081800391577174518014002170847553675972478260497414170618736038125142221);
    OrderStep(
      383536658937, 19150081800391577174518014002170847553675972478260497414170618736038125142221, 1,
      11551868642195457728186667163980936391958467963780365631879832845526240571883);
    OrderStep(
      767073317875, 11551868642195457728186667163980936391958467963780365631879832845526240571883, 0,
      5053970183329303734083970995299862021285121654002285241243662095329000714560);
    OrderStep(
      1534146635750, 5053970183329303734083970995299862021285121654002285241243662095329000714560, 1,
      2997221858682788751599940192357292234087461306149729300991070253952314231254);
    OrderStep(
      3068293271501, 2997221858682788751599940192357292234087461306149729300991070253952314231254, 0,
      1158864674556884102863072769414513629576922765871300912853430616761293277995);
    OrderStep(
      6136586543002, 1158864674556884102863072769414513629576922765871300912853430616761293277995, 1,
      15566378383776961216865706945531494628949601736459385930311934560917077513735);
    OrderStep(
      12273173086005, 15566378383776961216865706945531494628949601736459385930311934560917077513735, 1,
      20008596745880805082150868064678520905810601901618159276267688578597851981575);
    OrderStep(
      24546346172011, 20008596745880805082150868064678520905810601901618159276267688578597851981575, 1,
      15903511685131771000602742684788932040607655047184374341105948884848526712673);
    OrderStep(
      49092692344023, 15903511685131771000602742684788932040607655047184374341105948884848526712673, 1,
      15869482716685516133991480243448479096484095417313353154755341481103009025334);
    OrderStep(
      98185384688047, 15869482716685516133991480243448479096484095417313353154755341481103009025334, 0,
      520670192713106747870622642634890534021981560750617004091071789459310697773);
    OrderStep(
      196370769376094, 520670192713106747870622642634890534021981560750617004091071789459310697773, 0,
      21169335698798681466873714656872295820719543653841725774388801410251274613834);
    OrderStep(
      392741538752188, 21169335698798681466873714656872295820719543653841725774388801410251274613834, 1,
      8129968201598656851592208720796621944808002439398315183288286272752000075225);
    OrderStep(
      785483077504377, 8129968201598656851592208720796621944808002439398315183288286272752000075225, 0,
      20182925880333160333512574127383311475878456085161582900911862531795173837604);
    OrderStep(
      1570966155008754, 20182925880333160333512574127383311475878456085161582900911862531795173837604, 1,
      18608707035443471719479351587612093902144147197957025806185680077526416433516);
    OrderStep(
      3141932310017509, 18608707035443471719479351587612093902144147197957025806185680077526416433516, 0,
      11052742353096130583380847994547880482106796542005414620605658134912518192539);
    OrderStep(
      6283864620035018, 11052742353096130583380847994547880482106796542005414620605658134912518192539, 1,
      11991398248557761076576074912237961339677140950692999944567175016655509006028);
    OrderStep(
      12567729240070037, 11991398248557761076576074912237961339677140950692999944567175016655509006028, 1,
      2427265327903145776741942430532840298758721804892354858537663928917781026571);
    OrderStep(
      25135458480140075, 2427265327903145776741942430532840298758721804892354858537663928917781026571, 1,
      18674051693854597106953944099734278061281140733400162433184210360638373519951);
    OrderStep(
      50270916960280151, 18674051693854597106953944099734278061281140733400162433184210360638373519951, 1,
      18069082182010672830531893994553695979511948101025408673123688155489840665421);
    OrderStep(
      100541833920560303, 18069082182010672830531893994553695979511948101025408673123688155489840665421, 0,
      12662760479978724940456761403186740738757421394625625088634522967936944012285);
    OrderStep(
      201083667841120606, 12662760479978724940456761403186740738757421394625625088634522967936944012285, 1,
      5370056676400179391675205731231878538336019273886123820064678663166306027500);
    OrderStep(
      402167335682241213, 5370056676400179391675205731231878538336019273886123820064678663166306027500, 0,
      10946981634193614234692100782334946631921196237632139169335881613768693038112);
    OrderStep(
      804334671364482426, 10946981634193614234692100782334946631921196237632139169335881613768693038112, 0,
      18823848328123256721503209829416631858259967179654229784785471819525529693234);
    OrderStep(
      1608669342728964852, 18823848328123256721503209829416631858259967179654229784785471819525529693234, 0,
      17224479003740889929597626164679110020845864689862344246795218051695496997324);
    OrderStep(
      3217338685457929704, 17224479003740889929597626164679110020845864689862344246795218051695496997324, 0,
      21291155865226103802629101271706834739945129555934787824546176190638066921733);
    OrderStep(
      6434677370915859408, 21291155865226103802629101271706834739945129555934787824546176190638066921733, 1,
      1159180082875925122827335883339934335939152625220166251884665097731990128470);
    OrderStep(
      12869354741831718817, 1159180082875925122827335883339934335939152625220166251884665097731990128470, 1,
      4026651828982447365436751304644701360749446276463150729369181864273044619747);
    OrderStep(
      25738709483663437635, 4026651828982447365436751304644701360749446276463150729369181864273044619747, 1,
      20748328098757622418291772732695551281914218386325608670585682747967881737090);
    OrderStep(
      51477418967326875271, 20748328098757622418291772732695551281914218386325608670585682747967881737090, 0,
      10580595985966062540693123397969065611390141476572025263395239792627505292734);
    OrderStep(
      102954837934653750542, 10580595985966062540693123397969065611390141476572025263395239792627505292734, 0,
      1362416418440406086413331222786475724659009543357076720037856262648810310977);
    OrderStep(
      205909675869307501084, 1362416418440406086413331222786475724659009543357076720037856262648810310977, 1,
      21758704310680794260592306860162168231862909685202012605867514969115556683437);
    OrderStep(
      411819351738615002169, 21758704310680794260592306860162168231862909685202012605867514969115556683437, 0,
      6129120106040914264701755088205265463004300204702402440068300487064967395199);
    OrderStep(
      823638703477230004338, 6129120106040914264701755088205265463004300204702402440068300487064967395199, 1,
      20174154710870813814265407418747916173625165239618664068877462700238540747422);
    OrderStep(
      1647277406954460008677, 20174154710870813814265407418747916173625165239618664068877462700238540747422, 0,
      748198730681821824699967142710170379147745904555839701630231878411276176935);
    OrderStep(
      3294554813908920017354, 748198730681821824699967142710170379147745904555839701630231878411276176935, 0,
      17942202728760664196627408924523642857629682365796286306431541672575249730438);
    OrderStep(
      6589109627817840034708, 17942202728760664196627408924523642857629682365796286306431541672575249730438, 1,
      5943997453117762920024847409610815971305710943922462566915468061023111475281);
    OrderStep(
      13178219255635680069417, 5943997453117762920024847409610815971305710943922462566915468061023111475281, 0,
      19587178321216629342532737946168711654680913606059503705496172297469891566925);
    OrderStep(
      26356438511271360138834, 19587178321216629342532737946168711654680913606059503705496172297469891566925, 1,
      35480399837086862129637879782351874411581913777821865934806477562408620480);
    OrderStep(
      52712877022542720277669, 35480399837086862129637879782351874411581913777821865934806477562408620480, 0,
      17175509830176973298447596888286323829251817668743841726917036029623323181768);
    OrderStep(
      105425754045085440555338, 17175509830176973298447596888286323829251817668743841726917036029623323181768, 1,
      14337504746119573765144800791177244516868470958644802944561545161865381338284);
    OrderStep(
      210851508090170881110677, 14337504746119573765144800791177244516868470958644802944561545161865381338284, 0,
      12692764321998828706809875524196793369535460966763219826109912811094099689898);
    OrderStep(
      421703016180341762221354, 12692764321998828706809875524196793369535460966763219826109912811094099689898, 0,
      9760920215680297146059253198399333521919235335198974561423145160153593888083);
    OrderStep(
      843406032360683524442708, 9760920215680297146059253198399333521919235335198974561423145160153593888083, 1,
      3750251973921904028226731446145283868899241553610421048991270740673261240476);
    OrderStep(
      1686812064721367048885417, 3750251973921904028226731446145283868899241553610421048991270740673261240476, 0,
      7926872813574266968519796821085798303575980410316129517763023745426956278320);
    OrderStep(
      3373624129442734097770834, 7926872813574266968519796821085798303575980410316129517763023745426956278320, 0,
      10181608100256976783400575136818910847176704356209688589930474965336429024015);
    OrderStep(
      6747248258885468195541668, 10181608100256976783400575136818910847176704356209688589930474965336429024015, 1,
      1775808659149033796638210575042676873349222963059477345204705082856148946641);
    OrderStep(
      13494496517770936391083337, 1775808659149033796638210575042676873349222963059477345204705082856148946641, 1,
      14244080746985472109071544864289643402291784897116457025653203028876510377496);
    OrderStep(
      26988993035541872782166675, 14244080746985472109071544864289643402291784897116457025653203028876510377496, 1,
      14974999839874456328590897189858885730068432349123283257802303814525268530220);
    OrderStep(
      53977986071083745564333351, 14974999839874456328590897189858885730068432349123283257802303814525268530220, 1,
      17731497203272904982863114371271470604391014981785313892648549683893663779570);
    OrderStep(
      107955972142167491128666703, 17731497203272904982863114371271470604391014981785313892648549683893663779570, 1,
      418491876119612320199549799003946826589192696758148245949586195888070785974);
    OrderStep(
      215911944284334982257333407, 418491876119612320199549799003946826589192696758148245949586195888070785974, 1,
      9026562671030384065355994875961796251803161736020766309469949024793315174429);
    OrderStep(
      431823888568669964514666815, 9026562671030384065355994875961796251803161736020766309469949024793315174429, 0,
      5904975488750705822419790192543269790937947462625134358776240734420189087100);
    OrderStep(
      863647777137339929029333630, 5904975488750705822419790192543269790937947462625134358776240734420189087100, 0,
      6589593602330189343484392963668212739216527920466298982792625681810559391984);
    OrderStep(
      1727295554274679858058667260, 6589593602330189343484392963668212739216527920466298982792625681810559391984, 0,
      1696488863363841938624296900991001125297705731460619987529339102338474266011);
    OrderStep(
      3454591108549359716117334520, 1696488863363841938624296900991001125297705731460619987529339102338474266011, 0,
      17017973199593569700719181191601816059183602212458927032704359373970788838793);
    OrderStep(
      6909182217098719432234669040, 17017973199593569700719181191601816059183602212458927032704359373970788838793, 1,
      1);
  }

  /** The scalar field order of BN254 is prime. */
  lemma FieldOrderIsPrime()
    ensures Prime(ORDER)
  {
    P4IsPrime();
    hide Prime, Power;
    OrderPower();
    PrimeByFactor(
      ORDER, P4, ORDER_BASE, 18830771696733986827343121108258373716716634563029220880262390084180817631389,
      114629821081693063490, 5442477491434024228909666046);
  }
}
