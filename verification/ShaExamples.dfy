/** Intermediate values of the examples for "abc" that the National Institute of Standards and Technology has
    published with FIPS 180. They pin the order of the words and the amounts of the shifts and rotations. */
module ShaExamples {
  import opened Bytes
  import Sha1
  import Sha256
  import Sha512

  /** SHA-256: the first and the last round, and the last word of the message schedule. */
  lemma Sha256Rounds()
    ensures Sha256.Round(Sha256.VarsOf(Sha256.InitialHash()), Sha256.K0()[0], 0x61626380) ==
            Sha256.Vars(0x5d6aebcd, 0x6a09e667, 0xbb67ae85, 0x3c6ef372, 0xfa2a4622, 0x510e527f, 0x9b05688c, 0x1f83d9ab)
    ensures Sha256.Round(Sha256.Vars(0xd39a2165, 0x04d24d6c, 0xb85e2ce9, 0xb6ae8fff,
                                     0xfb121210, 0x948d25b6, 0x961f4894, 0xb21bad3d),
                         0xc67178f2, 0x12b1edeb) ==
            Sha256.Vars(0x506e3058, 0xd39a2165, 0x04d24d6c, 0xb85e2ce9, 0x5ef50f24, 0xfb121210, 0x948d25b6, 0x961f4894)
  {
  }

  lemma Sha256Schedule(block: seq<byte>)
    requires |block| == Sha256.BLOCK
    requires Sha256.W(block, 61) == 0x668b2ff8 && Sha256.W(block, 56) == 0xef57b9cd
    requires Sha256.W(block, 48) == 0xfb3e89cb && Sha256.W(block, 47) == 0x065c43da
    ensures Sha256.W(block, 63) == 0x12b1edeb
  {
  }

  /** The digest of "abc", from the state behind the last round. */
  lemma Sha256Digest()
    ensures Sha256.Sums(Sha256.InitialHash(), Sha256.Vars(0x506e3058, 0xd39a2165, 0x04d24d6c, 0xb85e2ce9,
                                                          0x5ef50f24, 0xfb121210, 0x948d25b6, 0x961f4894)) ==
            [0xba7816bf, 0x8f01cfea, 0x414140de, 0x5dae2223, 0xb00361a3, 0x96177a9c, 0xb410ff61, 0xf20015ad]
  {
  }

  /** SHA-512. */
  lemma Sha512Rounds()
    ensures Sha512.Round(Sha512.VarsOf(Sha512.InitialHash512()), Sha512.K0()[0], 0x6162638000000000) ==
            Sha512.Vars(0xf6afceb8bcfcddf5, 0x6a09e667f3bcc908, 0xbb67ae8584caa73b, 0x3c6ef372fe94f82b,
                        0x58cb02347ab51f91, 0x510e527fade682d1, 0x9b05688c2b3e6c1f, 0x1f83d9abfb41bd6b)
    ensures Sha512.Round(Sha512.Vars(0x10d9c4c4295599f6, 0xd67806db8b148677, 0x654ef9abec389ca9, 0xc8960e6be864b916,
                                     0x9bb4d39778c07f9e, 0x25c96a7768fb2aa3, 0xceb9fc3691ce8326, 0x995019a6ff3ba3de),
                         0x6c44198c4a475817, 0x92aeeed1a7bcf7d2) ==
            Sha512.Vars(0x73a54f399fa4b1b2, 0x10d9c4c4295599f6, 0xd67806db8b148677, 0x654ef9abec389ca9,
                        0xd08446aa79693ed7, 0x9bb4d39778c07f9e, 0x25c96a7768fb2aa3, 0xceb9fc3691ce8326)
  {
  }

  lemma Sha512Schedule(block: seq<byte>)
    requires |block| == Sha512.BLOCK
    requires Sha512.W(block, 77) == 0x464af5671d71c12e && Sha512.W(block, 72) == 0xf63d4265cc1c5a78
    requires Sha512.W(block, 64) == 0x5099c3add79f90ec && Sha512.W(block, 63) == 0xcc4918b5949206bb
    ensures Sha512.W(block, 79) == 0x92aeeed1a7bcf7d2
  {
  }

  /** SHA-1: a round of each kind. */
  lemma Sha1Rounds()
    ensures Sha1.Round(Sha1.Vars(0x67452301, 0xefcdab89, 0x98badcfe, 0x10325476, 0xc3d2e1f0), 0, 0x61626380) ==
            Sha1.Vars(0x0116fc33, 0x67452301, 0x7bf36ae2, 0x98badcfe, 0x10325476)
    ensures Sha1.Round(Sha1.Vars(0xfd9e1d7d, 0xdc64901d, 0x20aa99ca, 0xd3a49608, 0xc82f758b), 20, 0x00000000) ==
            Sha1.Vars(0x1a37b0ca, 0xfd9e1d7d, 0x77192407, 0x20aa99ca, 0xd3a49608)
    ensures Sha1.Round(Sha1.Vars(0x32de1cba, 0x4c986405, 0xf718e5cf, 0x03d447f6, 0xf72eec32), 40, 0xd2e138c4) ==
            Sha1.Vars(0xfc87dedf, 0x32de1cba, 0x53261901, 0xf718e5cf, 0x03d447f6)
    ensures Sha1.Round(Sha1.Vars(0x3f52de5a, 0x09d785fd, 0x3498bfd4, 0xf211824f, 0xd79915ab), 60, 0x7ba06619) ==
            Sha1.Vars(0xd756c147, 0x3f52de5a, 0x4275e17f, 0x3498bfd4, 0xf211824f)
    ensures Sha1.Round(Sha1.Vars(0x5738d5e1, 0x860d21cc, 0x681e6df6, 0xd8fdf6ad, 0xd7b9da25), 79, 0x822e0879) ==
            Sha1.Vars(0x42541b35, 0x5738d5e1, 0x21834873, 0x681e6df6, 0xd8fdf6ad)
  {
  }

  lemma Sha1Schedule(block: seq<byte>)
    requires |block| == Sha1.BLOCK
    requires Sha1.W(block, 76) == 0xe6e60b69 && Sha1.W(block, 71) == 0x458546f4
    requires Sha1.W(block, 65) == 0x000f0000 && Sha1.W(block, 63) == 0x627b49a1
    ensures Sha1.W(block, 79) == 0x822e0879
  {
  }
}
