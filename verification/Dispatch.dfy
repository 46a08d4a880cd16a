/** First-match dispatch over the two decode tables. */
module Dispatch {
  import opened Words
  import opened Bits
  import opened Patterns
  import opened Tables
  import opened Entries

  /** Entry i of the ternary table matches the word. */
  predicate TritHit(t: Tr32, i: nat)
    requires i < 37
  {
    TritTable();
    Hit(TRIT_DIGITS, Norm(t), TRS_INST_LIST[i])
  }

  /** Entry i of the binary table matches the value. */
  predicate BitHit(v: nat, i: nat)
    requires i < 37
  {
    BitTable();
    Hit(BIT_DIGITS, BitTrits(32, v), INST_LIST[i])
  }

  /** The outcome of the ternary search: the first entry that matches, or 37 when none does. */
  predicate TritSelects(t: Tr32, idx: nat) {
    idx <= 37 && (forall i :: 0 <= i < idx ==> !TritHit(t, i)) && (idx < 37 ==> TritHit(t, idx))
  }

  predicate BitSelects(v: nat, idx: nat) {
    idx <= 37 && (forall i :: 0 <= i < idx ==> !BitHit(v, i)) && (idx < 37 ==> BitHit(v, idx))
  }

  /** The pattern column of the tables; index 37 is the terminator. */
  function TritPattern(i: nat): (p: string)
    requires i < 37
    ensures forall t: Tr32 :: Safe(TRIT_DIGITS, 't', Norm(t), p)
    ensures forall t: Tr32 :: Answer(TRIT_DIGITS, 't', Norm(t), p) == TritHit(t, i)
  {
    TritAnswers(i);
    PatternText('t', TRS_INST_LIST[i])
  }

  function BitPattern(i: nat): (p: string)
    requires i < 37
    ensures forall v: nat :: Safe(BIT_DIGITS, 'b', BitTrits(32, v), p)
    ensures forall v: nat :: Answer(BIT_DIGITS, 'b', BitTrits(32, v), p) == BitHit(v, i)
  {
    BitAnswers(i);
    PatternText('b', INST_LIST[i])
  }

  lemma TritAnswers(i: nat)
    requires i < 37
    ensures |TRS_INST_LIST| == 37
    ensures var p := PatternText('t', TRS_INST_LIST[i]);
            forall t: Tr32 :: Safe(TRIT_DIGITS, 't', Norm(t), p)
                             && Answer(TRIT_DIGITS, 't', Norm(t), p) == TritHit(t, i)
  {
    TritTable();
    var p := PatternText('t', TRS_INST_LIST[i]);
    forall t: Tr32
      ensures Safe(TRIT_DIGITS, 't', Norm(t), p) && Answer(TRIT_DIGITS, 't', Norm(t), p) == TritHit(t, i)
    {
      AnswerIsHit(TRIT_DIGITS, 't', Norm(t), TRS_INST_LIST[i]);
    }
  }

  lemma BitAnswers(i: nat)
    requires i < 37
    ensures |INST_LIST| == 37
    ensures var p := PatternText('b', INST_LIST[i]);
            forall v: nat :: Safe(BIT_DIGITS, 'b', BitTrits(32, v), p)
                             && Answer(BIT_DIGITS, 'b', BitTrits(32, v), p) == BitHit(v, i)
  {
    BitTable();
    var p := PatternText('b', INST_LIST[i]);
    forall v: nat
      ensures Safe(BIT_DIGITS, 'b', BitTrits(32, v), p) && Answer(BIT_DIGITS, 'b', BitTrits(32, v), p) == BitHit(v, i)
    {
      AnswerIsHit(BIT_DIGITS, 'b', BitTrits(32, v), INST_LIST[i]);
    }
  }

  /** The ternary search loop; its result stands for the handler that would be called. */
  method TritDispatch(inst: Tr32) returns (idx: nat)
    ensures TritSelects(inst, idx)
  {
    idx := 0;
    while idx < 37
      invariant idx <= 37
      invariant forall i :: 0 <= i < idx ==> !TritHit(inst, i)
    {
      var found := TritpatMatchS(inst, TritPattern(idx));
      if found {
        break;
      }
      idx := idx + 1;
    }
  }

  /** The binary search loop. */
  method BitDispatch(inst: nat) returns (idx: nat)
    requires inst < 0x1_0000_0000
    ensures BitSelects(inst, idx)
  {
    idx := 0;
    while idx < 37
      invariant idx <= 37
      invariant forall i :: 0 <= i < idx ==> !BitHit(inst, i)
    {
      var found := BitpatMatchS(inst, BitPattern(idx));
      if found {
        break;
      }
      idx := idx + 1;
    }
  }

  lemma HitsAgree(v: nat, i: nat)
    requires i < 37
    ensures BitHit(v, i) == TritHit(BitTrits(32, v), i)
  {
    EntriesAgree(v, i);
  }

  /** The two decoders select the same entry, or both find none. */
  lemma DecodersAgree(v: nat, idx: nat)
    ensures BitSelects(v, idx) <==> TritSelects(BitTrits(32, v), idx)
  {
    forall i | 0 <= i < 37
      ensures BitHit(v, i) == TritHit(BitTrits(32, v), i)
    {
      HitsAgree(v, i);
    }
  }
}
