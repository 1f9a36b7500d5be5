/** The constant lookup tables of Lab9/software/lab9_app/aes.h.

    A table of 256 bytes is written as sixteen rows of sixteen bytes, the most significant byte
    of a row being its first element, so that a row reads like a line of the source. */
module AesTables {

  /** Element x mod 16 of a row of sixteen bytes. */
  function Column(row: bv128, x: bv8): bv8 {
    var shift: bv8 := (0x0F - (x & 0x0F)) << 3;
    ((row >> shift) & 0xFF) as bv8
  }

  /** aes_sbox[x] */
  function AesSbox(x: bv8): bv8 {
    var row: bv128 :=
      if x < 0x10 then 0x637C777BF26B6FC53001672BFED7AB76 else
      if x < 0x20 then 0xCA82C97DFA5947F0ADD4A2AF9CA472C0 else
      if x < 0x30 then 0xB7FD9326363FF7CC34A5E5F171D83115 else
      if x < 0x40 then 0x04C723C31896059A071280E2EB27B275 else
      if x < 0x50 then 0x09832C1A1B6E5AA0523BD6B329E32F84 else
      if x < 0x60 then 0x53D100ED20FCB15B6ACBBE394A4C58CF else
      if x < 0x70 then 0xD0EFAAFB434D338545F9027F503C9FA8 else
      if x < 0x80 then 0x51A3408F929D38F5BCB6DA2110FFF3D2 else
      if x < 0x90 then 0xCD0C13EC5F974417C4A77E3D645D1973 else
      if x < 0xA0 then 0x60814FDC222A908846EEB814DE5E0BDB else
      if x < 0xB0 then 0xE0323A0A4906245CC2D3AC629195E479 else
      if x < 0xC0 then 0xE7C8376D8DD54EA96C56F4EA657AAE08 else
      if x < 0xD0 then 0xBA78252E1CA6B4C6E8DD741F4BBD8B8A else
      if x < 0xE0 then 0x703EB5664803F60E613557B986C11D9E else
      if x < 0xF0 then 0xE1F8981169D98E949B1E87E9CE5528DF else
      0x8CA1890DBFE6426841992D0FB054BB16;
    Column(row, x)
  }

  /** aes_invsbox[x] */
  function AesInvSbox(x: bv8): bv8 {
    var row: bv128 :=
      if x < 0x10 then 0x52096AD53036A538BF40A39E81F3D7FB else
      if x < 0x20 then 0x7CE339829B2FFF87348E4344C4DEE9CB else
      if x < 0x30 then 0x547B9432A6C2233DEE4C950B42FAC34E else
      if x < 0x40 then 0x082EA16628D924B2765BA2496D8BD125 else
      if x < 0x50 then 0x72F8F66486689816D4A45CCC5D65B692 else
      if x < 0x60 then 0x6C704850FDEDB9DA5E154657A78D9D84 else
      if x < 0x70 then 0x90D8AB008CBCD30AF7E45805B8B34506 else
      if x < 0x80 then 0xD02C1E8FCA3F0F02C1AFBD0301138A6B else
      if x < 0x90 then 0x3A9111414F67DCEA97F2CFCEF0B4E673 else
      if x < 0xA0 then 0x96AC7422E7AD3585E2F937E81C75DF6E else
      if x < 0xB0 then 0x47F11A711D29C5896FB7620EAA18BE1B else
      if x < 0xC0 then 0xFC563E4BC6D279209ADBC0FE78CD5AF4 else
      if x < 0xD0 then 0x1FDDA8338807C731B11210592780EC5F else
      if x < 0xE0 then 0x60517FA919B54A0D2DE57A9F93C99CEF else
      if x < 0xF0 then 0xA0E03B4DAE2AF5B0C8EBBB3C83539961 else
      0x172B047EBA77D626E169146355210C7D;
    Column(row, x)
  }

  /** gf_mul[x][0], the products by {02} */
  function GfColumn0(x: bv8): bv8 {
    var row: bv128 :=
      if x < 0x10 then 0x00020406080A0C0E10121416181A1C1E else
      if x < 0x20 then 0x20222426282A2C2E30323436383A3C3E else
      if x < 0x30 then 0x40424446484A4C4E50525456585A5C5E else
      if x < 0x40 then 0x60626466686A6C6E70727476787A7C7E else
      if x < 0x50 then 0x80828486888A8C8E90929496989A9C9E else
      if x < 0x60 then 0xA0A2A4A6A8AAACAEB0B2B4B6B8BABCBE else
      if x < 0x70 then 0xC0C2C4C6C8CACCCED0D2D4D6D8DADCDE else
      if x < 0x80 then 0xE0E2E4E6E8EAECEEF0F2F4F6F8FAFCFE else
      if x < 0x90 then 0x1B191F1D131117150B090F0D03010705 else
      if x < 0xA0 then 0x3B393F3D333137352B292F2D23212725 else
      if x < 0xB0 then 0x5B595F5D535157554B494F4D43414745 else
      if x < 0xC0 then 0x7B797F7D737177756B696F6D63616765 else
      if x < 0xD0 then 0x9B999F9D939197958B898F8D83818785 else
      if x < 0xE0 then 0xBBB9BFBDB3B1B7B5ABA9AFADA3A1A7A5 else
      if x < 0xF0 then 0xDBD9DFDDD3D1D7D5CBC9CFCDC3C1C7C5 else
      0xFBF9FFFDF3F1F7F5EBE9EFEDE3E1E7E5;
    Column(row, x)
  }

  /** gf_mul[x][1], the products by {03} */
  function GfColumn1(x: bv8): bv8 {
    var row: bv128 :=
      if x < 0x10 then 0x000306050C0F0A09181B1E1D14171211 else
      if x < 0x20 then 0x303336353C3F3A39282B2E2D24272221 else
      if x < 0x30 then 0x606366656C6F6A69787B7E7D74777271 else
      if x < 0x40 then 0x505356555C5F5A59484B4E4D44474241 else
      if x < 0x50 then 0xC0C3C6C5CCCFCAC9D8DBDEDDD4D7D2D1 else
      if x < 0x60 then 0xF0F3F6F5FCFFFAF9E8EBEEEDE4E7E2E1 else
      if x < 0x70 then 0xA0A3A6A5ACAFAAA9B8BBBEBDB4B7B2B1 else
      if x < 0x80 then 0x909396959C9F9A99888B8E8D84878281 else
      if x < 0x90 then 0x9B989D9E97949192838085868F8C898A else
      if x < 0xA0 then 0xABA8ADAEA7A4A1A2B3B0B5B6BFBCB9BA else
      if x < 0xB0 then 0xFBF8FDFEF7F4F1F2E3E0E5E6EFECE9EA else
      if x < 0xC0 then 0xCBC8CDCEC7C4C1C2D3D0D5D6DFDCD9DA else
      if x < 0xD0 then 0x5B585D5E57545152434045464F4C494A else
      if x < 0xE0 then 0x6B686D6E67646162737075767F7C797A else
      if x < 0xF0 then 0x3B383D3E37343132232025262F2C292A else
      0x0B080D0E07040102131015161F1C191A;
    Column(row, x)
  }

  /** gf_mul[x][2], the products by {09} */
  function GfColumn2(x: bv8): bv8 {
    var row: bv128 :=
      if x < 0x10 then 0x0009121B242D363F48415A536C657E77 else
      if x < 0x20 then 0x9099828BB4BDA6AFD8D1CAC3FCF5EEE7 else
      if x < 0x30 then 0x3B3229201F160D04737A6168575E454C else
      if x < 0x40 then 0xABA2B9B08F869D94E3EAF1F8C7CED5DC else
      if x < 0x50 then 0x767F646D525B40493E372C251A130801 else
      if x < 0x60 then 0xE6EFF4FDC2CBD0D9AEA7BCB58A839891 else
      if x < 0x70 then 0x4D445F5669607B72050C171E2128333A else
      if x < 0x80 then 0xDDD4CFC6F9F0EBE2959C878EB1B8A3AA else
      if x < 0x90 then 0xECE5FEF7C8C1DAD3A4ADB6BF8089929B else
      if x < 0xA0 then 0x7C756E6758514A43343D262F1019020B else
      if x < 0xB0 then 0xD7DEC5CCF3FAE1E89F968D84BBB2A9A0 else
      if x < 0xC0 then 0x474E555C636A71780F061D142B223930 else
      if x < 0xD0 then 0x9A938881BEB7ACA5D2DBC0C9F6FFE4ED else
      if x < 0xE0 then 0x0A0318112E273C35424B5059666F747D else
      if x < 0xF0 then 0xA1A8B3BA858C979EE9E0FBF2CDC4DFD6 else
      0x3138232A151C070E79706B625D544F46;
    Column(row, x)
  }

  /** gf_mul[x][3], the products by {0b} */
  function GfColumn3(x: bv8): bv8 {
    var row: bv128 :=
      if x < 0x10 then 0x000B161D2C273A3158534E45747F6269 else
      if x < 0x20 then 0xB0BBA6AD9C978A81E8E3FEF5C4CFD2D9 else
      if x < 0x30 then 0x7B706D66575C414A2328353E0F041912 else
      if x < 0x40 then 0xCBC0DDD6E7ECF1FA9398858EBFB4A9A2 else
      if x < 0x50 then 0xF6FDE0EBDAD1CCC7AEA5B8B38289949F else
      if x < 0x60 then 0x464D505B6A617C771E1508033239242F else
      if x < 0x70 then 0x8D869B90A1AAB7BCD5DEC3C8F9F2EFE4 else
      if x < 0x80 then 0x3D362B20111A070C656E737849425F54 else
      if x < 0x90 then 0xF7FCE1EADBD0CDC6AFA4B9B28388959E else
      if x < 0xA0 then 0x474C515A6B607D761F1409023338252E else
      if x < 0xB0 then 0x8C879A91A0ABB6BDD4DFC2C9F8F3EEE5 else
      if x < 0xC0 then 0x3C372A21101B060D646F727948435E55 else
      if x < 0xD0 then 0x010A171C2D263B3059524F44757E6368 else
      if x < 0xE0 then 0xB1BAA7AC9D968B80E9E2FFF4C5CED3D8 else
      if x < 0xF0 then 0x7A716C67565D404B2229343F0E051813 else
      0xCAC1DCD7E6EDF0FB9299848FBEB5A8A3;
    Column(row, x)
  }

  /** gf_mul[x][4], the products by {0d} */
  function GfColumn4(x: bv8): bv8 {
    var row: bv128 :=
      if x < 0x10 then 0x000D1A1734392E236865727F5C51464B else
      if x < 0x20 then 0xD0DDCAC7E4E9FEF3B8B5A2AF8C81969B else
      if x < 0x30 then 0xBBB6A1AC8F829598D3DEC9C4E7EAFDF0 else
      if x < 0x40 then 0x6B66717C5F524548030E1914373A2D20 else
      if x < 0x50 then 0x6D60777A5954434E05081F12313C2B26 else
      if x < 0x60 then 0xBDB0A7AA8984939ED5D8CFC2E1ECFBF6 else
      if x < 0x70 then 0xD6DBCCC1E2EFF8F5BEB3A4A98A87909D else
      if x < 0x80 then 0x060B1C11323F28256E6374795A57404D else
      if x < 0x90 then 0xDAD7C0CDEEE3F4F9B2BFA8A5868B9C91 else
      if x < 0xA0 then 0x0A07101D3E332429626F7875565B4C41 else
      if x < 0xB0 then 0x616C7B7655584F420904131E3D30272A else
      if x < 0xC0 then 0xB1BCABA685889F92D9D4C3CEEDE0F7FA else
      if x < 0xD0 then 0xB7BAADA0838E9994DFD2C5C8EBE6F1FC else
      if x < 0xE0 then 0x676A7D70535E49440F0215183B36212C else
      if x < 0xF0 then 0x0C01161B3835222F64697E73505D4A47 else
      0xDCD1C6CBE8E5F2FFB4B9AEA3808D9A97;
    Column(row, x)
  }

  /** gf_mul[x][5], the products by {0e} */
  function GfColumn5(x: bv8): bv8 {
    var row: bv128 :=
      if x < 0x10 then 0x000E1C123836242A707E6C624846545A else
      if x < 0x20 then 0xE0EEFCF2D8D6C4CA909E8C82A8A6B4BA else
      if x < 0x30 then 0xDBD5C7C9E3EDFFF1ABA5B7B9939D8F81 else
      if x < 0x40 then 0x3B352729030D1F114B455759737D6F61 else
      if x < 0x50 then 0xADA3B1BF959B8987DDD3C1CFE5EBF9F7 else
      if x < 0x60 then 0x4D43515F757B69673D33212F050B1917 else
      if x < 0x70 then 0x76786A644E40525C06081A143E30222C else
      if x < 0x80 then 0x96988A84AEA0B2BCE6E8FAF4DED0C2CC else
      if x < 0x90 then 0x414F5D537977656B313F2D230907151B else
      if x < 0xA0 then 0xA1AFBDB39997858BD1DFCDC3E9E7F5FB else
      if x < 0xB0 then 0x9A948688A2ACBEB0EAE4F6F8D2DCCEC0 else
      if x < 0xC0 then 0x7A746668424C5E500A041618323C2E20 else
      if x < 0xD0 then 0xECE2F0FED4DAC8C69C92808EA4AAB8B6 else
      if x < 0xE0 then 0x0C02101E343A28267C72606E444A5856 else
      if x < 0xF0 then 0x37392B250F01131D47495B557F71636D else
      0xD7D9CBC5EFE1F3FDA7A9BBB59F91838D;
    Column(row, x)
  }

  /** gf_mul[x][c] */
  function GfMul(x: bv8, c: nat): bv8
    requires c < 6
  {
    if c == 0 then GfColumn0(x)
    else if c == 1 then GfColumn1(x)
    else if c == 2 then GfColumn2(x)
    else if c == 3 then GfColumn3(x)
    else if c == 4 then GfColumn4(x)
    else GfColumn5(x)
  }

  /** rcon[i]; the whole table has sixteen entries. */
  function Rcon(i: nat): bv8
    requires i < 16
  {
    [0x00, 0x01, 0x02, 0x04, 0x08, 0x10, 0x20, 0x40, 0x80, 0x1B, 0x36, 0x6C, 0xD8, 0xAB, 0x4D, 0x9A][i]
  }
}
