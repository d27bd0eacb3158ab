/** Stored blocks and arguments at which lookups meet an entry of another family. */
module OddKeys {
  import opened Records
  import opened ChainModel
  import opened ChainInvariants
  import opened Database
  import opened Examples

  // ---- a hash of another length ----

  /** The rest of a miner's key after a tag, and the score suffix. */
  function Spelling(miner: Bytes): Bytes
    requires |miner| == PUB_KEY_LENGTH
  {
    miner[1..] + SCORE_SUFFIX
  }

  /** A key that starts with a tag makes its score answer to 37 bytes in place of a hash. */
  lemma {:induction false} SpelledScore(bs: History, tag: byte, miner: Bytes)
    requires |miner| == PUB_KEY_LENGTH && miner[0] == tag
    ensures Under(bs, tag, Spelling(miner)) == Score(bs, miner)
  {
    hide Score;
    assert Spelling(miner)[32..] == SCORE_SUFFIX && [tag] + Spelling(miner)[..32] == miner;
  }

  /** A block whose miner's key starts with the tag of header heights. */
  function Tagged(): Block {
    var b := Blk(1, 0);
    b.(header := b.header.(miner := seq(PUB_KEY_LENGTH, _ => HEADER_HEIGHT)))
  }

  /** With this block stored, these 37 bytes, the hash of nothing, have height 1. */
  lemma {:induction false} HashOfNothing()
    ensures WellFormed(Tagged())
    ensures HeightOfHash([Tagged()], Spelling(Tagged().header.miner)) == 0
    ensures Under([Tagged()], HEADER_HEIGHT, Spelling(Tagged().header.miner)) == 1
  {
    var bs, miner := [Tagged()], Tagged().header.miner;
    assert bs[..0] == [];
    assert Score(bs, miner) == 1;
    SpelledScore(bs, HEADER_HEIGHT, miner);
    assert |Spelling(miner)| == 37 && |Tagged().hash| == 32;
  }

  // ---- an account of another family ----

  function Odd(): Block {
    var b := Blk(2, 1);
    b.(header := b.header.(root := Tag(9)),
       evds := [Evidence(CORE_PROTOCOL_V1, 0, Tag(EVIDENCE), [], seq(PUB_KEY_LENGTH, _ => 2), [])])
  }

  /** A tag, a height and the first 24 bytes of an evidence hash. */
  function OddKey(): Bytes {
    [EVIDENCE] + HByte(2) + Tag(EVIDENCE)[..24]
  }

  /** With this block stored at height 2, an account that owns nothing has seven bytes of an evidence
      hash in its list. */
  lemma {:induction false} StrayAccount()
    ensures var bs := [Blk(1, 0), Odd()];
      && WellFormed(Odd()) && |OddKey()| == PUB_KEY_LENGTH
      && (forall a :: HeightOfAccount(bs, OddKey(), a) == 0)
      && Stray(bs, OddKey(), Tag(EVIDENCE)[25..]) == Some(EvidenceRecord(Odd().evds[0]))
  {
    hide HByte;
    var bs, e := [Blk(1, 0), Odd()], Odd().evds[0];
    assert |Tag(9)| == 32 && !Odd().HasEmptyRoot();
    assert e in Odd().evds && Carries(bs[1], Tag(EVIDENCE));
    StrayEvidence(bs, 2, Tag(EVIDENCE));
    assert LastWith(Odd().evds, Tag(EVIDENCE)) == e;
    assert OddKey()[0] == EVIDENCE && e.pubKey[0] == 2;
    forall a ensures HeightOfAccount(bs, OddKey(), a) == 0 {
      assert forall p | 0 <= p < 2 :: !CarriesFrom(bs[p], OddKey(), a);
    }
  }
}
