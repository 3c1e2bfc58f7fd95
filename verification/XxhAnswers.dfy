/** Known hashes: every step of XXH64, on inputs with known answers. */
module XxhAnswers {
  import opened Bits
  import opened Xxh64
  import opened XxhFacts

  lemma TailOfNothing(hash: Word)
    ensures Tail(hash, []) == hash
  {}

  /** The hash of nothing. */
  lemma HashOfNothing()
    ensures Hash(0, []) == 0xef46_db37_51d8_e999
  {
    hide Avalanche, Xor, Tail;
    ShortHash(0, []);
    TailOfNothing(0x27d4_eb2f_1656_67c5);
    assert Xor(0x27d4_eb2f_1656_67c5, 0x13ea_7597) == 0x27d4_eb2f_05bc_1252 by {
      XorIs(Parts(0x27d4, 0xeb2f, 0x1656, 0x67c5), Parts(0x0, 0x0, 0x13ea, 0x7597), 0x27d4_eb2f_1656_67c5,
            0x13ea_7597, 0x27d4_eb2f_05bc_1252);
    }
    assert Xor(0xbeb1_3dda_13c2_ed4e, 0x5_f589_eed0) == 0xbeb1_3ddf_e64b_039e by {
      XorIs(Parts(0xbeb1, 0x3dda, 0x13c2, 0xed4e), Parts(0x0, 0x5, 0xf589, 0xeed0), 0xbeb1_3dda_13c2_ed4e,
            0x5_f589_eed0, 0xbeb1_3ddf_e64b_039e);
    }
    assert Xor(0xef46_db37_be9e_32ae, 0xef46_db37) == 0xef46_db37_51d8_e999 by {
      XorIs(Parts(0xef46, 0xdb37, 0xbe9e, 0x32ae), Parts(0x0, 0x0, 0xef46, 0xdb37), 0xef46_db37_be9e_32ae,
            0xef46_db37, 0xef46_db37_51d8_e999);
    }
    AvalancheIs(0x27d4_eb2f_1656_67c5, 0x27d4_eb2f_05bc_1252, 0xbeb1_3dda_13c2_ed4e, 0xbeb1_3ddf_e64b_039e,
                0xef46_db37_be9e_32ae, 0xef46_db37_51d8_e999);
  }

  function ZeroWord(): seq<Byte> { [0, 0, 0, 0, 0, 0, 0, 0] }

  /** One block of zeros. */
  function Zeros(): seq<Byte> { ZeroWord() + ZeroWord() + ZeroWord() + ZeroWord() }

  lemma ZerosLanes()
    ensures InitialLanes(0) == Lanes(0x60ea_27ee_adc0_b5d6, 0xc2b2_ae3d_27d4_eb4f, 0x0, 0x61c8_864e_7a14_3579)
  {}

  lemma ZerosMerged()
    ensures Converge(Lanes(0x1193_61e2_963b_6d41, 0x7f0e_345b_e364_9cd2, 0x0, 0x6d7a_d279_4d29_2f91)) ==
                     0xcbbf_d165_3baa_cd51
  {
    hide Xor, MergeRound, Converge;
    assert MergeRound(0xf426_265b_9d0a_f9ac, 0x1193_61e2_963b_6d41) == 0xb5b5_65ee_46e8_17dd by {
      assert Xor(0xf426_265b_9d0a_f9ac, 0xafa6_5b9b_1253_fe9a) == 0x5b80_7dc0_8f59_0736 by {
        XorIs(Parts(0xf426, 0x265b, 0x9d0a, 0xf9ac), Parts(0xafa6, 0x5b9b, 0x1253, 0xfe9a),
              0xf426_265b_9d0a_f9ac, 0xafa6_5b9b_1253_fe9a, 0x5b80_7dc0_8f59_0736);
      }
      MergeIs(0xf426_265b_9d0a_f9ac, 0x1193_61e2_963b_6d41, 0xb57a_e22d_4a75_620f, 0xafa6_5b9b_1253_fe9a,
              0x5b80_7dc0_8f59_0736, 0xb5b5_65ee_46e8_17dd);
    }
    assert MergeRound(0xb5b5_65ee_46e8_17dd, 0x7f0e_345b_e364_9cd2) == 0x8e97_9dd7_27b1_a3c2 by {
      assert Xor(0xb5b5_65ee_46e8_17dd, 0x1114_45b5_e55c_ebb4) == 0xa4a1_205b_a3b4_fc69 by {
        XorIs(Parts(0xb5b5, 0x65ee, 0x46e8, 0x17dd), Parts(0x1114, 0x45b5, 0xe55c, 0xebb4),
              0xb5b5_65ee_46e8_17dd, 0x1114_45b5_e55c_ebb4, 0xa4a1_205b_a3b4_fc69);
      }
      MergeIs(0xb5b5_65ee_46e8_17dd, 0x7f0e_345b_e364_9cd2, 0x5ac3_3f58_63e9_2ace, 0x1114_45b5_e55c_ebb4,
              0xa4a1_205b_a3b4_fc69, 0x8e97_9dd7_27b1_a3c2);
    }
    assert MergeRound(0x8e97_9dd7_27b1_a3c2, 0x0) == 0x5973_7186_f9ad_1db1 by {
      XorNothing(0x8e97_9dd7_27b1_a3c2);
      MergeIs(0x8e97_9dd7_27b1_a3c2, 0x0, 0x0, 0x0, 0x8e97_9dd7_27b1_a3c2, 0x5973_7186_f9ad_1db1);
    }
    assert MergeRound(0x5973_7186_f9ad_1db1, 0x6d7a_d279_4d29_2f91) == 0xcbbf_d165_3baa_cd51 by {
      assert Xor(0x5973_7186_f9ad_1db1, 0x862c_55ac_cd1d_2293) == 0xdf5f_242a_34b0_3f22 by {
        XorIs(Parts(0x5973, 0x7186, 0xf9ad, 0x1db1), Parts(0x862c, 0x55ac, 0xcd1d, 0x2293),
              0x5973_7186_f9ad_1db1, 0x862c_55ac_cd1d_2293, 0xdf5f_242a_34b0_3f22);
      }
      MergeIs(0x5973_7186_f9ad_1db1, 0x6d7a_d279_4d29_2f91, 0xa548_5d2b_1973_c8bf, 0x862c_55ac_cd1d_2293,
              0xdf5f_242a_34b0_3f22, 0xcbbf_d165_3baa_cd51);
    }
    ConvergeIs(Lanes(0x1193_61e2_963b_6d41, 0x7f0e_345b_e364_9cd2, 0x0, 0x6d7a_d279_4d29_2f91),
               0xf426_265b_9d0a_f9ac, 0xb5b5_65ee_46e8_17dd, 0x8e97_9dd7_27b1_a3c2, 0x5973_7186_f9ad_1db1,
               0xcbbf_d165_3baa_cd51);
  }

  lemma ZerosFinish()
    ensures Avalanche(0xcbbf_d165_3baa_cd71) == 0xf6e9_be5d_7063_2cf5
  {
    hide Xor, Avalanche;
    assert Xor(0xcbbf_d165_3baa_cd71, 0x65df_e8b2) == 0xcbbf_d165_5e75_25c3 by {
      XorIs(Parts(0xcbbf, 0xd165, 0x3baa, 0xcd71), Parts(0x0, 0x0, 0x65df, 0xe8b2), 0xcbbf_d165_3baa_cd71,
            0x65df_e8b2, 0xcbbf_d165_5e75_25c3);
    }
    assert Xor(0xf7ea_4738_aa4c_a82d, 0x7_bf52_39c5) == 0xf7ea_473f_151e_91e8 by {
      XorIs(Parts(0xf7ea, 0x4738, 0xaa4c, 0xa82d), Parts(0x0, 0x7, 0xbf52, 0x39c5), 0xf7ea_4738_aa4c_a82d,
            0x7_bf52_39c5, 0xf7ea_473f_151e_91e8);
    }
    assert Xor(0xf6e9_be5d_868a_92a8, 0xf6e9_be5d) == 0xf6e9_be5d_7063_2cf5 by {
      XorIs(Parts(0xf6e9, 0xbe5d, 0x868a, 0x92a8), Parts(0x0, 0x0, 0xf6e9, 0xbe5d), 0xf6e9_be5d_868a_92a8,
            0xf6e9_be5d, 0xf6e9_be5d_7063_2cf5);
    }
    AvalancheIs(0xcbbf_d165_3baa_cd71, 0xcbbf_d165_5e75_25c3, 0xf7ea_4738_aa4c_a82d, 0xf7ea_473f_151e_91e8,
                0xf6e9_be5d_868a_92a8, 0xf6e9_be5d_7063_2cf5);
  }

  /** A whole block and nothing after it. */
  lemma HashOfZeros()
    ensures Hash(0, Zeros()) == 0xf6e9_be5d_7063_2cf5
  {
    hide Avalanche, Xor, Tail, Converge, Round, LeNat, Hash, InitialLanes, Stripe;
    ZerosLanes();
    BlockHash(0, ZeroWord() + ZeroWord() + ZeroWord() + ZeroWord(), []);
    BlockOfFour(InitialLanes(0), ZeroWord(), ZeroWord(), ZeroWord(), ZeroWord());
    EightBytes(0x0, 0x0, 0x0, 0x0, 0x0, 0x0, 0x0, 0x0);
    assert Round(0x60ea_27ee_adc0_b5d6, 0x0) == 0x1193_61e2_963b_6d41 by {
      RoundIs(0x60ea_27ee_adc0_b5d6, 0x0, 0x60ea_27ee_adc0_b5d6, 0x1193_61e2_963b_6d41);
    }
    assert Round(0xc2b2_ae3d_27d4_eb4f, 0x0) == 0x7f0e_345b_e364_9cd2 by {
      RoundIs(0xc2b2_ae3d_27d4_eb4f, 0x0, 0xc2b2_ae3d_27d4_eb4f, 0x7f0e_345b_e364_9cd2);
    }
    assert Round(0x0, 0x0) == 0x0 by {
      RoundIs(0x0, 0x0, 0x0, 0x0);
    }
    assert Round(0x61c8_864e_7a14_3579, 0x0) == 0x6d7a_d279_4d29_2f91 by {
      RoundIs(0x61c8_864e_7a14_3579, 0x0, 0x61c8_864e_7a14_3579, 0x6d7a_d279_4d29_2f91);
    }
    ZerosMerged();
    TailOfNothing(0xcbbf_d165_3baa_cd71);
    assert Zeros() == ZeroWord() + ZeroWord() + ZeroWord() + ZeroWord() + [];
    ZerosFinish();
  }

  lemma SeededLanes()
    ensures InitialLanes(0x9e37_79b1) == Lanes(0x60ea_27ef_4bf8_2f87, 0xc2b2_ae3d_c60c_6500, 0x9e37_79b1,
                         0x61c8_864f_184b_af2a)
  {}

  lemma SeededMerged()
    ensures Converge(Lanes(0x174_4d0e_163b_6d41, 0x6eef_1f87_6364_9cd2, 0xefe0_eb2b_8000_0000,
                     0x5d5b_bda4_cd29_2f91)) == 0x467_c6d3_33f9_2fc0
  {
    hide Xor, MergeRound, Converge;
    assert MergeRound(0x7fbe_4a72_9d0a_c825, 0x174_4d0e_163b_6d41) == 0x7df9_504f_1edb_877a by {
      assert Xor(0x7fbe_4a72_9d0a_c825, 0xc38a_dea9_6a39_98d4) == 0xbc34_94db_f733_50f1 by {
        XorIs(Parts(0x7fbe, 0x4a72, 0x9d0a, 0xc825), Parts(0xc38a, 0xdea9, 0x6a39, 0x98d4),
              0x7fbe_4a72_9d0a_c825, 0xc38a_dea9_6a39_98d4, 0xbc34_94db_f733_50f1);
      }
      MergeIs(0x7fbe_4a72_9d0a_c825, 0x174_4d0e_163b_6d41, 0x144a_6319_ca75_620f, 0xc38a_dea9_6a39_98d4,
              0xbc34_94db_f733_50f1, 0x7df9_504f_1edb_877a);
    }
    assert MergeRound(0x7df9_504f_1edb_877a, 0x6eef_1f87_6364_9cd2) == 0x35b3_9bfd_0647_d26f by {
      assert Xor(0x7df9_504f_1edb_877a, 0xe7ee_ae07_bd42_85ee) == 0x9a17_fe48_a399_0294 by {
        XorIs(Parts(0x7df9, 0x504f, 0x1edb, 0x877a), Parts(0xe7ee, 0xae07, 0xbd42, 0x85ee),
              0x7df9_504f_1edb_877a, 0xe7ee_ae07_bd42_85ee, 0x9a17_fe48_a399_0294);
      }
      MergeIs(0x7df9_504f_1edb_877a, 0x6eef_1f87_6364_9cd2, 0xb992_c044_e3e9_2ace, 0xe7ee_ae07_bd42_85ee,
              0x9a17_fe48_a399_0294, 0x35b3_9bfd_0647_d26f);
    }
    assert MergeRound(0x35b3_9bfd_0647_d26f, 0xefe0_eb2b_8000_0000) == 0x2b46_9755_eb60_e536 by {
      assert Xor(0x35b3_9bfd_0647_d26f, 0xd6da_6851_d7e5_9a3a) == 0xe369_f3ac_d1a2_4855 by {
        XorIs(Parts(0x35b3, 0x9bfd, 0x647, 0xd26f), Parts(0xd6da, 0x6851, 0xd7e5, 0x9a3a),
              0x35b3_9bfd_0647_d26f, 0xd6da_6851_d7e5_9a3a, 0xe369_f3ac_d1a2_4855);
      }
      MergeIs(0x35b3_9bfd_0647_d26f, 0xefe0_eb2b_8000_0000, 0x5ecf_80ec_8000_0000, 0xd6da_6851_d7e5_9a3a,
              0xe369_f3ac_d1a2_4855, 0x2b46_9755_eb60_e536);
    }
    assert MergeRound(0x2b46_9755_eb60_e536, 0x5d5b_bda4_cd29_2f91) == 0x467_c6d3_33f9_2fc0 by {
      assert Xor(0x2b46_9755_eb60_e536, 0x9a10_d8bb_2502_bccd) == 0xb156_4fee_ce62_59fb by {
        XorIs(Parts(0x2b46, 0x9755, 0xeb60, 0xe536), Parts(0x9a10, 0xd8bb, 0x2502, 0xbccd),
              0x2b46_9755_eb60_e536, 0x9a10_d8bb_2502_bccd, 0xb156_4fee_ce62_59fb);
      }
      MergeIs(0x2b46_9755_eb60_e536, 0x5d5b_bda4_cd29_2f91, 0x417_de17_9973_c8bf, 0x9a10_d8bb_2502_bccd,
              0xb156_4fee_ce62_59fb, 0x467_c6d3_33f9_2fc0);
    }
    ConvergeIs(Lanes(0x174_4d0e_163b_6d41, 0x6eef_1f87_6364_9cd2, 0xefe0_eb2b_8000_0000, 0x5d5b_bda4_cd29_2f91),
               0x7fbe_4a72_9d0a_c825, 0x7df9_504f_1edb_877a, 0x35b3_9bfd_0647_d26f, 0x2b46_9755_eb60_e536,
               0x467_c6d3_33f9_2fc0);
  }

  lemma SeededFinish()
    ensures Avalanche(0x467_c6d3_33f9_2fe0) == 0xe64f_5ba4_fda9_bf9d
  {
    hide Xor, Avalanche;
    assert Xor(0x467_c6d3_33f9_2fe0, 0x233_e369) == 0x467_c6d3_31ca_cc89 by {
      XorIs(Parts(0x467, 0xc6d3, 0x33f9, 0x2fe0), Parts(0x0, 0x0, 0x233, 0xe369), 0x467_c6d3_33f9_2fe0,
            0x233_e369, 0x467_c6d3_31ca_cc89);
    }
    assert Xor(0x309f_35a0_c7ca_e147, 0x1_84f9_ad06) == 0x309f_35a1_4333_4c41 by {
      XorIs(Parts(0x309f, 0x35a0, 0xc7ca, 0xe147), Parts(0x0, 0x1, 0x84f9, 0xad06), 0x309f_35a0_c7ca_e147,
            0x1_84f9_ad06, 0x309f_35a1_4333_4c41);
    }
    assert Xor(0xe64f_5ba4_1be6_e439, 0xe64f_5ba4) == 0xe64f_5ba4_fda9_bf9d by {
      XorIs(Parts(0xe64f, 0x5ba4, 0x1be6, 0xe439), Parts(0x0, 0x0, 0xe64f, 0x5ba4), 0xe64f_5ba4_1be6_e439,
            0xe64f_5ba4, 0xe64f_5ba4_fda9_bf9d);
    }
    AvalancheIs(0x467_c6d3_33f9_2fe0, 0x467_c6d3_31ca_cc89, 0x309f_35a0_c7ca_e147, 0x309f_35a1_4333_4c41,
                0xe64f_5ba4_1be6_e439, 0xe64f_5ba4_fda9_bf9d);
  }

  /** The seed enters all four lanes. */
  lemma SeededHashOfZeros()
    ensures Hash(0x9e37_79b1, Zeros()) == 0xe64f_5ba4_fda9_bf9d
  {
    hide Avalanche, Xor, Tail, Converge, Round, LeNat, Hash, InitialLanes, Stripe;
    SeededLanes();
    BlockHash(0x9e37_79b1, ZeroWord() + ZeroWord() + ZeroWord() + ZeroWord(), []);
    BlockOfFour(InitialLanes(0x9e37_79b1), ZeroWord(), ZeroWord(), ZeroWord(), ZeroWord());
    EightBytes(0x0, 0x0, 0x0, 0x0, 0x0, 0x0, 0x0, 0x0);
    assert Round(0x60ea_27ef_4bf8_2f87, 0x0) == 0x174_4d0e_163b_6d41 by {
      RoundIs(0x60ea_27ef_4bf8_2f87, 0x0, 0x60ea_27ef_4bf8_2f87, 0x174_4d0e_163b_6d41);
    }
    assert Round(0xc2b2_ae3d_c60c_6500, 0x0) == 0x6eef_1f87_6364_9cd2 by {
      RoundIs(0xc2b2_ae3d_c60c_6500, 0x0, 0xc2b2_ae3d_c60c_6500, 0x6eef_1f87_6364_9cd2);
    }
    assert Round(0x9e37_79b1, 0x0) == 0xefe0_eb2b_8000_0000 by {
      RoundIs(0x9e37_79b1, 0x0, 0x9e37_79b1, 0xefe0_eb2b_8000_0000);
    }
    assert Round(0x61c8_864f_184b_af2a, 0x0) == 0x5d5b_bda4_cd29_2f91 by {
      RoundIs(0x61c8_864f_184b_af2a, 0x0, 0x61c8_864f_184b_af2a, 0x5d5b_bda4_cd29_2f91);
    }
    SeededMerged();
    TailOfNothing(0x467_c6d3_33f9_2fe0);
    assert Zeros() == ZeroWord() + ZeroWord() + ZeroWord() + ZeroWord() + [];
    SeededFinish();
  }

  function Message1(): seq<Byte> { [0x4e, 0x6f, 0x62, 0x6f, 0x64, 0x79, 0x20, 0x69] }

  function Message2(): seq<Byte> { [0x6e, 0x73, 0x70, 0x65, 0x63, 0x74, 0x73, 0x20] }

  function Message3(): seq<Byte> { [0x74, 0x68, 0x65, 0x20, 0x73, 0x70, 0x61, 0x6d] }

  function Message4(): seq<Byte> { [0x6d, 0x69, 0x73, 0x68, 0x20, 0x72, 0x65, 0x70] }

  function MessageEnd(): seq<Byte> { [0x65, 0x74, 0x69, 0x74, 0x69, 0x6f, 0x6e] }

  /** "Nobody inspects the spammish repetition" in ASCII. */
  function Message(): seq<Byte> { Message1() + Message2() + Message3() + Message4() + MessageEnd() }

  lemma MessageLanes()
    ensures InitialLanes(0) == Lanes(0x60ea_27ee_adc0_b5d6, 0xc2b2_ae3d_27d4_eb4f, 0x0, 0x61c8_864e_7a14_3579)
  {}

  lemma MessageMerged()
    ensures Converge(Lanes(0x3724_5127_a406_7e4b, 0x1b30_2b0a_818f_92cf, 0xcd62_d843_d058_0fca,
                     0x1c16_e43e_f214_2a4a)) == 0x84f2_2c42_1a11_a8b5
  {
    hide Xor, MergeRound, Converge;
    assert MergeRound(0xc4de_2ce6_39fb_8154, 0x3724_5127_a406_7e4b) == 0x30d4_0ddd_00ae_a144 by {
      assert Xor(0xc4de_2ce6_39fb_8154, 0x7790_ff1f_7a9a_2803) == 0xb34e_d3f9_4361_a957 by {
        XorIs(Parts(0xc4de, 0x2ce6, 0x39fb, 0x8154), Parts(0x7790, 0xff1f, 0x7a9a, 0x2803),
              0xc4de_2ce6_39fb_8154, 0x7790_ff1f_7a9a_2803, 0xb34e_d3f9_4361_a957);
      }
      MergeIs(0xc4de_2ce6_39fb_8154, 0x3724_5127_a406_7e4b, 0xbf0e_534a_970b_d225, 0x7790_ff1f_7a9a_2803,
              0xb34e_d3f9_4361_a957, 0x30d4_0ddd_00ae_a144);
    }
    assert MergeRound(0x30d4_0ddd_00ae_a144, 0x1b30_2b0a_818f_92cf) == 0xe5a1_f095_bf49_8698 by {
      assert Xor(0x30d4_0ddd_00ae_a144, 0xdece_d6c0_bf71_6b27) == 0xee1a_db1d_bfdf_ca63 by {
        XorIs(Parts(0x30d4, 0xddd, 0xae, 0xa144), Parts(0xdece, 0xd6c0, 0xbf71, 0x6b27),
              0x30d4_0ddd_00ae_a144, 0xdece_d6c0_bf71_6b27, 0xee1a_db1d_bfdf_ca63);
      }
      MergeIs(0x30d4_0ddd_00ae_a144, 0x1b30_2b0a_818f_92cf, 0x40bc_c4c2_e37e_52e1, 0xdece_d6c0_bf71_6b27,
              0xee1a_db1d_bfdf_ca63, 0xe5a1_f095_bf49_8698);
    }
    assert MergeRound(0xe5a1_f095_bf49_8698, 0xcd62_d843_d058_0fca) == 0xf9ce_e721_e748_096d by {
      assert Xor(0xe5a1_f095_bf49_8698, 0x7007_3eb8_0575_9bbe) == 0x95a6_ce2d_ba3c_1d26 by {
        XorIs(Parts(0xe5a1, 0xf095, 0xbf49, 0x8698), Parts(0x7007, 0x3eb8, 0x575, 0x9bbe),
              0xe5a1_f095_bf49_8698, 0x7007_3eb8_0575_9bbe, 0x95a6_ce2d_ba3c_1d26);
      }
      MergeIs(0xe5a1_f095_bf49_8698, 0xcd62_d843_d058_0fca, 0x1917_ffa4_faf3_4d56, 0x7007_3eb8_0575_9bbe,
              0x95a6_ce2d_ba3c_1d26, 0xf9ce_e721_e748_096d);
    }
    assert MergeRound(0xf9ce_e721_e748_096d, 0x1c16_e43e_f214_2a4a) == 0x84f2_2c42_1a11_a8b5 by {
      assert Xor(0xf9ce_e721_e748_096d, 0xc1cb_bae5_0e57_e4f3) == 0x3805_5dc4_e91f_ed9e by {
        XorIs(Parts(0xf9ce, 0xe721, 0xe748, 0x96d), Parts(0xc1cb, 0xbae5, 0xe57, 0xe4f3),
              0xf9ce_e721_e748_096d, 0xc1cb_bae5_0e57_e4f3, 0x3805_5dc4_e91f_ed9e);
      }
      MergeIs(0xf9ce_e721_e748_096d, 0x1c16_e43e_f214_2a4a, 0x2898_226b_8252_fad6, 0xc1cb_bae5_0e57_e4f3,
              0x3805_5dc4_e91f_ed9e, 0x84f2_2c42_1a11_a8b5);
    }
    ConvergeIs(Lanes(0x3724_5127_a406_7e4b, 0x1b30_2b0a_818f_92cf, 0xcd62_d843_d058_0fca, 0x1c16_e43e_f214_2a4a),
               0xc4de_2ce6_39fb_8154, 0x30d4_0ddd_00ae_a144, 0xe5a1_f095_bf49_8698, 0xf9ce_e721_e748_096d,
               0x84f2_2c42_1a11_a8b5);
  }

  lemma MessageTail()
    ensures Tail(0x84f2_2c42_1a11_a8dc, [0x65, 0x74, 0x69, 0x74, 0x69, 0x6f, 0x6e]) == 0x1d0a_4748_3b37_cc24
  {
    hide Xor, LeNat, Tail;
    FourBytes(0x65, 0x74, 0x69, 0x74);
    assert Xor(0x84f2_2c42_1a11_a8dc, 0xe986_3933_eb2b_1343) == 0x6d74_1571_f13a_bb9f by {
      XorIs(Parts(0x84f2, 0x2c42, 0x1a11, 0xa8dc), Parts(0xe986, 0x3933, 0xeb2b, 0x1343), 0x84f2_2c42_1a11_a8dc,
            0xe986_3933_eb2b_1343, 0x6d74_1571_f13a_bb9f);
    }
    FourIs(0x84f2_2c42_1a11_a8dc, [0x65, 0x74, 0x69, 0x74], [0x69, 0x6f, 0x6e], 0x7469_7465,
           0xe986_3933_eb2b_1343, 0x6d74_1571_f13a_bb9f, 0x9fca_0f5d_0aaa_110f);
    assert [0x65, 0x74, 0x69, 0x74] + [0x69, 0x6f, 0x6e] == [0x65, 0x74, 0x69, 0x74, 0x69, 0x6f, 0x6e];
    assert Xor(0x9fca_0f5d_0aaa_110f, 0x5654_7650_2970_8fcd) == 0xc99e_790d_23da_9ec2 by {
      XorIs(Parts(0x9fca, 0xf5d, 0xaaa, 0x110f), Parts(0x5654, 0x7650, 0x2970, 0x8fcd), 0x9fca_0f5d_0aaa_110f,
            0x5654_7650_2970_8fcd, 0xc99e_790d_23da_9ec2);
    }
    OneIs(0x9fca_0f5d_0aaa_110f, 0x69, [0x6f, 0x6e], 0x5654_7650_2970_8fcd, 0xc99e_790d_23da_9ec2,
          0x7696_7154_6f21_ba14);
    assert [0x69] + [0x6f, 0x6e] == [0x69, 0x6f, 0x6e];
    assert Xor(0x7696_7154_6f21_ba14, 0x4551_f96a_af76_fe6b) == 0x33c7_883e_c057_447f by {
      XorIs(Parts(0x7696, 0x7154, 0x6f21, 0xba14), Parts(0x4551, 0xf96a, 0xaf76, 0xfe6b), 0x7696_7154_6f21_ba14,
            0x4551_f96a_af76_fe6b, 0x33c7_883e_c057_447f);
    }
    OneIs(0x7696_7154_6f21_ba14, 0x6f, [0x6e], 0x4551_f96a_af76_fe6b, 0x33c7_883e_c057_447f, 0xeae9_b643_c5f9_4e52);
    assert [0x6f] + [0x6e] == [0x6f, 0x6e];
    assert Xor(0xeae9_b643_c5f9_4e52, 0x1d7d_0e3b_9920_96a6) == 0xf794_b878_5cd9_d8f4 by {
      XorIs(Parts(0xeae9, 0xb643, 0xc5f9, 0x4e52), Parts(0x1d7d, 0xe3b, 0x9920, 0x96a6), 0xeae9_b643_c5f9_4e52,
            0x1d7d_0e3b_9920_96a6, 0xf794_b878_5cd9_d8f4);
    }
    OneIs(0xeae9_b643_c5f9_4e52, 0x6e, [], 0x1d7d_0e3b_9920_96a6, 0xf794_b878_5cd9_d8f4, 0x1d0a_4748_3b37_cc24);
    assert [0x6e] + [] == [0x6e];
    assert Tail(0x1d0a_4748_3b37_cc24, []) == 0x1d0a_4748_3b37_cc24 by { TailOfNothing(0x1d0a_4748_3b37_cc24); }
  }

  lemma MessageFinish()
    ensures Avalanche(0x1d0a_4748_3b37_cc24) == 0xfbce_a83c_8a37_8bf1
  {
    hide Xor, Avalanche;
    assert Xor(0x1d0a_4748_3b37_cc24, 0xe85_23a4) == 0x1d0a_4748_35b2_ef80 by {
      XorIs(Parts(0x1d0a, 0x4748, 0x3b37, 0xcc24), Parts(0x0, 0x0, 0xe85, 0x23a4), 0x1d0a_4748_3b37_cc24,
            0xe85_23a4, 0x1d0a_4748_35b2_ef80);
    }
    assert Xor(0x5f02_14be_aa12_6880, 0x2_f810_a5f5) == 0x5f02_14bc_5202_cd75 by {
      XorIs(Parts(0x5f02, 0x14be, 0xaa12, 0x6880), Parts(0x0, 0x2, 0xf810, 0xa5f5), 0x5f02_14be_aa12_6880,
            0x2_f810_a5f5, 0x5f02_14bc_5202_cd75);
    }
    assert Xor(0xfbce_a83c_71f9_23cd, 0xfbce_a83c) == 0xfbce_a83c_8a37_8bf1 by {
      XorIs(Parts(0xfbce, 0xa83c, 0x71f9, 0x23cd), Parts(0x0, 0x0, 0xfbce, 0xa83c), 0xfbce_a83c_71f9_23cd,
            0xfbce_a83c, 0xfbce_a83c_8a37_8bf1);
    }
    AvalancheIs(0x1d0a_4748_3b37_cc24, 0x1d0a_4748_35b2_ef80, 0x5f02_14be_aa12_6880, 0x5f02_14bc_5202_cd75,
                0xfbce_a83c_71f9_23cd, 0xfbce_a83c_8a37_8bf1);
  }

  /** A block, then four bytes, then three single ones. */
  lemma HashOfMessage()
    ensures Hash(0, Message()) == 0xfbce_a83c_8a37_8bf1
  {
    hide Avalanche, Xor, Tail, Converge, Round, LeNat, Hash, InitialLanes, Stripe;
    MessageLanes();
    BlockHash(0, Message1() + Message2() + Message3() + Message4(), MessageEnd());
    BlockOfFour(InitialLanes(0), Message1(), Message2(), Message3(), Message4());
    EightBytes(0x4e, 0x6f, 0x62, 0x6f, 0x64, 0x79, 0x20, 0x69);
    EightBytes(0x6e, 0x73, 0x70, 0x65, 0x63, 0x74, 0x73, 0x20);
    EightBytes(0x74, 0x68, 0x65, 0x20, 0x73, 0x70, 0x61, 0x6d);
    EightBytes(0x6d, 0x69, 0x73, 0x68, 0x20, 0x72, 0x65, 0x70);
    assert Round(0x60ea_27ee_adc0_b5d6, 0x6920_7964_6f62_6f4e) == 0x3724_5127_a406_7e4b by {
      RoundIs(0x60ea_27ee_adc0_b5d6, 0x6920_7964_6f62_6f4e, 0x67da_963b_77e5_a8e8, 0x3724_5127_a406_7e4b);
    }
    assert Round(0xc2b2_ae3d_27d4_eb4f, 0x2073_7463_6570_736e) == 0x1b30_2b0a_818f_92cf by {
      RoundIs(0xc2b2_ae3d_27d4_eb4f, 0x2073_7463_6570_736e, 0x81ab_3ef3_0896_8441, 0x1b30_2b0a_818f_92cf);
    }
    assert Round(0x0, 0x6d61_7073_2065_6874) == 0xcd62_d843_d058_0fca by {
      RoundIs(0x0, 0x6d61_7073_2065_6874, 0xa62_64cc_423d_b7cc, 0xcd62_d843_d058_0fca);
    }
    assert Round(0x61c8_864e_7a14_3579, 0x7065_7220_6873_696d) == 0x1c16_e43e_f214_2a4a by {
      RoundIs(0x61c8_864e_7a14_3579, 0x7065_7220_6873_696d, 0xe08c_c7cc_90bc_cd1c, 0x1c16_e43e_f214_2a4a);
    }
    MessageMerged();
    MessageTail();
    MessageFinish();
  }

  lemma EightTail()
    ensures Tail(0x27d4_eb2f_1656_67cd, [0x61, 0x62, 0x63, 0x64, 0x65, 0x66, 0x67, 0x68]) == 0xa119_981d_165a_d1df
  {
    hide Xor, LeNat, Tail;
    EightBytes(0x61, 0x62, 0x63, 0x64, 0x65, 0x66, 0x67, 0x68);
    assert Xor(0x27d4_eb2f_1656_67cd, 0xd582_9fa7_0a0f_cc74) == 0xf256_7488_1c59_abb9 by {
      XorIs(Parts(0x27d4, 0xeb2f, 0x1656, 0x67cd), Parts(0xd582, 0x9fa7, 0xa0f, 0xcc74), 0x27d4_eb2f_1656_67cd,
            0xd582_9fa7_0a0f_cc74, 0xf256_7488_1c59_abb9);
    }
    EightIs(0x27d4_eb2f_1656_67cd, [0x61, 0x62, 0x63, 0x64, 0x65, 0x66, 0x67, 0x68], [], 0x6867_6665_6463_6261,
            0xc328_51d8_754e_66ef, 0xd582_9fa7_0a0f_cc74, 0xf256_7488_1c59_abb9, 0xa119_981d_165a_d1df);
    assert [0x61, 0x62, 0x63, 0x64, 0x65, 0x66, 0x67, 0x68] + [] == [0x61, 0x62, 0x63, 0x64, 0x65, 0x66, 0x67, 0x68];
    TailOfNothing(0xa119_981d_165a_d1df);
  }

  lemma EightFinish()
    ensures Avalanche(0xa119_981d_165a_d1df) == 0x3ad3_5177_5b46_34b7
  {
    hide Xor, Avalanche;
    assert Xor(0xa119_981d_165a_d1df, 0x508c_cc0e) == 0xa119_981d_46d6_1dd1 by {
      XorIs(Parts(0xa119, 0x981d, 0x165a, 0xd1df), Parts(0x0, 0x0, 0x508c, 0xcc0e), 0xa119_981d_165a_d1df,
            0x508c_cc0e, 0xa119_981d_46d6_1dd1);
    }
    assert Xor(0x2a2d_41b7_f186_0e7f, 0x1_516a_0dbf) == 0x2a2d_41b6_a0ec_03c0 by {
      XorIs(Parts(0x2a2d, 0x41b7, 0xf186, 0xe7f), Parts(0x0, 0x1, 0x516a, 0xdbf), 0x2a2d_41b7_f186_0e7f,
            0x1_516a_0dbf, 0x2a2d_41b6_a0ec_03c0);
    }
    assert Xor(0x3ad3_5177_6195_65c0, 0x3ad3_5177) == 0x3ad3_5177_5b46_34b7 by {
      XorIs(Parts(0x3ad3, 0x5177, 0x6195, 0x65c0), Parts(0x0, 0x0, 0x3ad3, 0x5177), 0x3ad3_5177_6195_65c0,
            0x3ad3_5177, 0x3ad3_5177_5b46_34b7);
    }
    AvalancheIs(0xa119_981d_165a_d1df, 0xa119_981d_46d6_1dd1, 0x2a2d_41b7_f186_0e7f, 0x2a2d_41b6_a0ec_03c0,
                0x3ad3_5177_6195_65c0, 0x3ad3_5177_5b46_34b7);
  }

  /** "abcdefgh": eight bytes after the last block. */
  lemma HashOfEight()
    ensures Hash(0, [0x61, 0x62, 0x63, 0x64, 0x65, 0x66, 0x67, 0x68]) == 0x3ad3_5177_5b46_34b7
  {
    hide Avalanche, Xor, Tail, Converge, Round, LeNat, Hash, InitialLanes, Stripe;
    ShortHash(0, [0x61, 0x62, 0x63, 0x64, 0x65, 0x66, 0x67, 0x68]);
    EightTail();
    EightFinish();
  }

  lemma SeededEightTail()
    ensures Tail(0x27d4_eb2f_b48d_e17e, [0x61, 0x62, 0x63, 0x64, 0x65, 0x66, 0x67, 0x68]) == 0xe337_a0fa_ce5a_d1df
  {
    hide Xor, LeNat, Tail;
    EightBytes(0x61, 0x62, 0x63, 0x64, 0x65, 0x66, 0x67, 0x68);
    assert Xor(0x27d4_eb2f_b48d_e17e, 0xd582_9fa7_0a0f_cc74) == 0xf256_7488_be82_2d0a by {
      XorIs(Parts(0x27d4, 0xeb2f, 0xb48d, 0xe17e), Parts(0xd582, 0x9fa7, 0xa0f, 0xcc74), 0x27d4_eb2f_b48d_e17e,
            0xd582_9fa7_0a0f_cc74, 0xf256_7488_be82_2d0a);
    }
    EightIs(0x27d4_eb2f_b48d_e17e, [0x61, 0x62, 0x63, 0x64, 0x65, 0x66, 0x67, 0x68], [], 0x6867_6665_6463_6261,
            0xc328_51d8_754e_66ef, 0xd582_9fa7_0a0f_cc74, 0xf256_7488_be82_2d0a, 0xe337_a0fa_ce5a_d1df);
    assert [0x61, 0x62, 0x63, 0x64, 0x65, 0x66, 0x67, 0x68] + [] == [0x61, 0x62, 0x63, 0x64, 0x65, 0x66, 0x67, 0x68];
    TailOfNothing(0xe337_a0fa_ce5a_d1df);
  }

  lemma SeededEightFinish()
    ensures Avalanche(0xe337_a0fa_ce5a_d1df) == 0xdcf6_c3ea_e6ea_060f
  {
    hide Xor, Avalanche;
    assert Xor(0xe337_a0fa_ce5a_d1df, 0x719b_d07d) == 0xe337_a0fa_bfc1_01a2 by {
      XorIs(Parts(0xe337, 0xa0fa, 0xce5a, 0xd1df), Parts(0x0, 0x0, 0x719b, 0xd07d), 0xe337_a0fa_ce5a_d1df,
            0x719b_d07d, 0xe337_a0fa_bfc1_01a2);
    }
    assert Xor(0x788b_8e16_6137_36fe, 0x3_c45c_70b3) == 0x788b_8e15_a56b_464d by {
      XorIs(Parts(0x788b, 0x8e16, 0x6137, 0x36fe), Parts(0x0, 0x3, 0xc45c, 0x70b3), 0x788b_8e16_6137_36fe,
            0x3_c45c_70b3, 0x788b_8e15_a56b_464d);
    }
    assert Xor(0xdcf6_c3ea_3a1c_c5e5, 0xdcf6_c3ea) == 0xdcf6_c3ea_e6ea_060f by {
      XorIs(Parts(0xdcf6, 0xc3ea, 0x3a1c, 0xc5e5), Parts(0x0, 0x0, 0xdcf6, 0xc3ea), 0xdcf6_c3ea_3a1c_c5e5,
            0xdcf6_c3ea, 0xdcf6_c3ea_e6ea_060f);
    }
    AvalancheIs(0xe337_a0fa_ce5a_d1df, 0xe337_a0fa_bfc1_01a2, 0x788b_8e16_6137_36fe, 0x788b_8e15_a56b_464d,
                0xdcf6_c3ea_3a1c_c5e5, 0xdcf6_c3ea_e6ea_060f);
  }

  /** The seed of an input shorter than a block. */
  lemma SeededHashOfEight()
    ensures Hash(0x9e37_79b1, [0x61, 0x62, 0x63, 0x64, 0x65, 0x66, 0x67, 0x68]) == 0xdcf6_c3ea_e6ea_060f
  {
    hide Avalanche, Xor, Tail, Converge, Round, LeNat, Hash, InitialLanes, Stripe;
    ShortHash(0x9e37_79b1, [0x61, 0x62, 0x63, 0x64, 0x65, 0x66, 0x67, 0x68]);
    SeededEightTail();
    SeededEightFinish();
  }
}
