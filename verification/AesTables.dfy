/** The two substitution tables of the AES engine and the proof that each undoes the other. */
module AesTables {

  /** Entry `i` of a row of sixteen table entries; `i` is the low nibble of the looked-up byte. */
  function Pick(i: bv8,
                t0: bv8, t1: bv8, t2: bv8, t3: bv8, t4: bv8, t5: bv8, t6: bv8, t7: bv8,
                t8: bv8, t9: bv8, ta: bv8, tb: bv8, tc: bv8, td: bv8, te: bv8, tf: bv8): bv8
  {
    if i < 8 then
      if i < 4 then
        if i < 2 then (if i < 1 then t0 else t1) else (if i < 3 then t2 else t3)
      else
        if i < 6 then (if i < 5 then t4 else t5) else (if i < 7 then t6 else t7)
    else
      if i < 12 then
        if i < 10 then (if i < 9 then t8 else t9) else (if i < 11 then ta else tb)
      else
        if i < 14 then (if i < 13 then tc else td) else (if i < 15 then te else tf)
  }

  /** The forward table, one source row pair per line. */
  function Sbox(v: bv8): bv8 {
    var lo := v & 0x0f;
    if v < 0x10 then Pick(lo, 0x63, 0x7c, 0x77, 0x7b, 0xf2, 0x6b, 0x6f, 0xc5, 0x30, 0x01, 0x67, 0x2b, 0xfe, 0xd7, 0xab, 0x76) else
    if v < 0x20 then Pick(lo, 0xca, 0x82, 0xc9, 0x7d, 0xfa, 0x59, 0x47, 0xf0, 0xad, 0xd4, 0xa2, 0xaf, 0x9c, 0xa4, 0x72, 0xc0) else
    if v < 0x30 then Pick(lo, 0xb7, 0xfd, 0x93, 0x26, 0x36, 0x3f, 0xf7, 0xcc, 0x34, 0xa5, 0xe5, 0xf1, 0x71, 0xd8, 0x31, 0x15) else
    if v < 0x40 then Pick(lo, 0x04, 0xc7, 0x23, 0xc3, 0x18, 0x96, 0x05, 0x9a, 0x07, 0x12, 0x80, 0xe2, 0xeb, 0x27, 0xb2, 0x75) else
    if v < 0x50 then Pick(lo, 0x09, 0x83, 0x2c, 0x1a, 0x1b, 0x6e, 0x5a, 0xa0, 0x52, 0x3b, 0xd6, 0xb3, 0x29, 0xe3, 0x2f, 0x84) else
    if v < 0x60 then Pick(lo, 0x53, 0xd1, 0x00, 0xed, 0x20, 0xfc, 0xb1, 0x5b, 0x6a, 0xcb, 0xbe, 0x39, 0x4a, 0x4c, 0x58, 0xcf) else
    if v < 0x70 then Pick(lo, 0xd0, 0xef, 0xaa, 0xfb, 0x43, 0x4d, 0x33, 0x85, 0x45, 0xf9, 0x02, 0x7f, 0x50, 0x3c, 0x9f, 0xa8) else
    if v < 0x80 then Pick(lo, 0x51, 0xa3, 0x40, 0x8f, 0x92, 0x9d, 0x38, 0xf5, 0xbc, 0xb6, 0xda, 0x21, 0x10, 0xff, 0xf3, 0xd2) else
    if v < 0x90 then Pick(lo, 0xcd, 0x0c, 0x13, 0xec, 0x5f, 0x97, 0x44, 0x17, 0xc4, 0xa7, 0x7e, 0x3d, 0x64, 0x5d, 0x19, 0x73) else
    if v < 0xa0 then Pick(lo, 0x60, 0x81, 0x4f, 0xdc, 0x22, 0x2a, 0x90, 0x88, 0x46, 0xee, 0xb8, 0x14, 0xde, 0x5e, 0x0b, 0xdb) else
    if v < 0xb0 then Pick(lo, 0xe0, 0x32, 0x3a, 0x0a, 0x49, 0x06, 0x24, 0x5c, 0xc2, 0xd3, 0xac, 0x62, 0x91, 0x95, 0xe4, 0x79) else
    if v < 0xc0 then Pick(lo, 0xe7, 0xc8, 0x37, 0x6d, 0x8d, 0xd5, 0x4e, 0xa9, 0x6c, 0x56, 0xf4, 0xea, 0x65, 0x7a, 0xae, 0x08) else
    if v < 0xd0 then Pick(lo, 0xba, 0x78, 0x25, 0x2e, 0x1c, 0xa6, 0xb4, 0xc6, 0xe8, 0xdd, 0x74, 0x1f, 0x4b, 0xbd, 0x8b, 0x8a) else
    if v < 0xe0 then Pick(lo, 0x70, 0x3e, 0xb5, 0x66, 0x48, 0x03, 0xf6, 0x0e, 0x61, 0x35, 0x57, 0xb9, 0x86, 0xc1, 0x1d, 0x9e) else
    if v < 0xf0 then Pick(lo, 0xe1, 0xf8, 0x98, 0x11, 0x69, 0xd9, 0x8e, 0x94, 0x9b, 0x1e, 0x87, 0xe9, 0xce, 0x55, 0x28, 0xdf) else
    Pick(lo, 0x8c, 0xa1, 0x89, 0x0d, 0xbf, 0xe6, 0x42, 0x68, 0x41, 0x99, 0x2d, 0x0f, 0xb0, 0x54, 0xbb, 0x16)
  }

  /** The inverse table. */
  function InvSbox(v: bv8): bv8 {
    var lo := v & 0x0f;
    if v < 0x10 then Pick(lo, 0x52, 0x09, 0x6a, 0xd5, 0x30, 0x36, 0xa5, 0x38, 0xbf, 0x40, 0xa3, 0x9e, 0x81, 0xf3, 0xd7, 0xfb) else
    if v < 0x20 then Pick(lo, 0x7c, 0xe3, 0x39, 0x82, 0x9b, 0x2f, 0xff, 0x87, 0x34, 0x8e, 0x43, 0x44, 0xc4, 0xde, 0xe9, 0xcb) else
    if v < 0x30 then Pick(lo, 0x54, 0x7b, 0x94, 0x32, 0xa6, 0xc2, 0x23, 0x3d, 0xee, 0x4c, 0x95, 0x0b, 0x42, 0xfa, 0xc3, 0x4e) else
    if v < 0x40 then Pick(lo, 0x08, 0x2e, 0xa1, 0x66, 0x28, 0xd9, 0x24, 0xb2, 0x76, 0x5b, 0xa2, 0x49, 0x6d, 0x8b, 0xd1, 0x25) else
    if v < 0x50 then Pick(lo, 0x72, 0xf8, 0xf6, 0x64, 0x86, 0x68, 0x98, 0x16, 0xd4, 0xa4, 0x5c, 0xcc, 0x5d, 0x65, 0xb6, 0x92) else
    if v < 0x60 then Pick(lo, 0x6c, 0x70, 0x48, 0x50, 0xfd, 0xed, 0xb9, 0xda, 0x5e, 0x15, 0x46, 0x57, 0xa7, 0x8d, 0x9d, 0x84) else
    if v < 0x70 then Pick(lo, 0x90, 0xd8, 0xab, 0x00, 0x8c, 0xbc, 0xd3, 0x0a, 0xf7, 0xe4, 0x58, 0x05, 0xb8, 0xb3, 0x45, 0x06) else
    if v < 0x80 then Pick(lo, 0xd0, 0x2c, 0x1e, 0x8f, 0xca, 0x3f, 0x0f, 0x02, 0xc1, 0xaf, 0xbd, 0x03, 0x01, 0x13, 0x8a, 0x6b) else
    if v < 0x90 then Pick(lo, 0x3a, 0x91, 0x11, 0x41, 0x4f, 0x67, 0xdc, 0xea, 0x97, 0xf2, 0xcf, 0xce, 0xf0, 0xb4, 0xe6, 0x73) else
    if v < 0xa0 then Pick(lo, 0x96, 0xac, 0x74, 0x22, 0xe7, 0xad, 0x35, 0x85, 0xe2, 0xf9, 0x37, 0xe8, 0x1c, 0x75, 0xdf, 0x6e) else
    if v < 0xb0 then Pick(lo, 0x47, 0xf1, 0x1a, 0x71, 0x1d, 0x29, 0xc5, 0x89, 0x6f, 0xb7, 0x62, 0x0e, 0xaa, 0x18, 0xbe, 0x1b) else
    if v < 0xc0 then Pick(lo, 0xfc, 0x56, 0x3e, 0x4b, 0xc6, 0xd2, 0x79, 0x20, 0x9a, 0xdb, 0xc0, 0xfe, 0x78, 0xcd, 0x5a, 0xf4) else
    if v < 0xd0 then Pick(lo, 0x1f, 0xdd, 0xa8, 0x33, 0x88, 0x07, 0xc7, 0x31, 0xb1, 0x12, 0x10, 0x59, 0x27, 0x80, 0xec, 0x5f) else
    if v < 0xe0 then Pick(lo, 0x60, 0x51, 0x7f, 0xa9, 0x19, 0xb5, 0x4a, 0x0d, 0x2d, 0xe5, 0x7a, 0x9f, 0x93, 0xc9, 0x9c, 0xef) else
    if v < 0xf0 then Pick(lo, 0xa0, 0xe0, 0x3b, 0x4d, 0xae, 0x2a, 0xf5, 0xb0, 0xc8, 0xeb, 0xbb, 0x3c, 0x83, 0x53, 0x99, 0x61) else
    Pick(lo, 0x17, 0x2b, 0x04, 0x7e, 0xba, 0x77, 0xd6, 0x26, 0xe1, 0x69, 0x14, 0x63, 0x55, 0x21, 0x0c, 0x7d)
  }

  lemma InvSboxUndoesPart0(v: bv8)
    requires v < 0x20
    ensures InvSbox(Sbox(v)) == v
  {
  }

  lemma InvSboxUndoesPart1(v: bv8)
    requires 0x20 <= v < 0x40
    ensures InvSbox(Sbox(v)) == v
  {
  }

  lemma InvSboxUndoesPart2(v: bv8)
    requires 0x40 <= v < 0x60
    ensures InvSbox(Sbox(v)) == v
  {
  }

  lemma InvSboxUndoesPart3(v: bv8)
    requires 0x60 <= v < 0x80
    ensures InvSbox(Sbox(v)) == v
  {
  }

  lemma InvSboxUndoesPart4(v: bv8)
    requires 0x80 <= v < 0xa0
    ensures InvSbox(Sbox(v)) == v
  {
  }

  lemma InvSboxUndoesPart5(v: bv8)
    requires 0xa0 <= v < 0xc0
    ensures InvSbox(Sbox(v)) == v
  {
  }

  lemma InvSboxUndoesPart6(v: bv8)
    requires 0xc0 <= v < 0xe0
    ensures InvSbox(Sbox(v)) == v
  {
  }

  lemma InvSboxUndoesPart7(v: bv8)
    requires 0xe0 <= v
    ensures InvSbox(Sbox(v)) == v
  {
  }

  /** The inverse table undoes the table. */
  lemma InvSboxUndoesSbox(v: bv8)
    ensures InvSbox(Sbox(v)) == v
  {
    hide Sbox, InvSbox;
    if v < 0x20 {
      InvSboxUndoesPart0(v);
    } else if v < 0x40 {
      InvSboxUndoesPart1(v);
    } else if v < 0x60 {
      InvSboxUndoesPart2(v);
    } else if v < 0x80 {
      InvSboxUndoesPart3(v);
    } else if v < 0xa0 {
      InvSboxUndoesPart4(v);
    } else if v < 0xc0 {
      InvSboxUndoesPart5(v);
    } else if v < 0xe0 {
      InvSboxUndoesPart6(v);
    } else {
      InvSboxUndoesPart7(v);
    }
  }

  lemma SboxUndoesPart0(v: bv8)
    requires v < 0x20
    ensures Sbox(InvSbox(v)) == v
  {
  }

  lemma SboxUndoesPart1(v: bv8)
    requires 0x20 <= v < 0x40
    ensures Sbox(InvSbox(v)) == v
  {
  }

  lemma SboxUndoesPart2(v: bv8)
    requires 0x40 <= v < 0x60
    ensures Sbox(InvSbox(v)) == v
  {
  }

  lemma SboxUndoesPart3(v: bv8)
    requires 0x60 <= v < 0x80
    ensures Sbox(InvSbox(v)) == v
  {
  }

  lemma SboxUndoesPart4(v: bv8)
    requires 0x80 <= v < 0xa0
    ensures Sbox(InvSbox(v)) == v
  {
  }

  lemma SboxUndoesPart5(v: bv8)
    requires 0xa0 <= v < 0xc0
    ensures Sbox(InvSbox(v)) == v
  {
  }

  lemma SboxUndoesPart6(v: bv8)
    requires 0xc0 <= v < 0xe0
    ensures Sbox(InvSbox(v)) == v
  {
  }

  lemma SboxUndoesPart7(v: bv8)
    requires 0xe0 <= v
    ensures Sbox(InvSbox(v)) == v
  {
  }

  /** The table undoes the inverse table. */
  lemma SboxUndoesInvSbox(v: bv8)
    ensures Sbox(InvSbox(v)) == v
  {
    hide Sbox, InvSbox;
    if v < 0x20 {
      SboxUndoesPart0(v);
    } else if v < 0x40 {
      SboxUndoesPart1(v);
    } else if v < 0x60 {
      SboxUndoesPart2(v);
    } else if v < 0x80 {
      SboxUndoesPart3(v);
    } else if v < 0xa0 {
      SboxUndoesPart4(v);
    } else if v < 0xc0 {
      SboxUndoesPart5(v);
    } else if v < 0xe0 {
      SboxUndoesPart6(v);
    } else {
      SboxUndoesPart7(v);
    }
  }
}
