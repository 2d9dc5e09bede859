/** SQLGetFunctions: the bit vector, the hundred-entry array and the single answer over one list of function ids. */
module FunctionBitmap {
  import opened OdbcTypes

  /** SQLUSMALLINT: a function id, or a word of the answer. */
  type Word = w: int | 0 <= w < TWO_16

  const SQL_API_ALL_FUNCTIONS: Word := 0
  const SQL_API_ODBC3_ALL_FUNCTIONS: Word := 999
  const SQL_API_ODBC3_ALL_FUNCTIONS_SIZE: nat := 250
  const SQL_TRUE: Word := 1
  const SQL_FALSE: Word := 0

  /** `id >> 4`. */
  function WordOf(id: Word): nat {
    id / 16
  }

  // ----- bits of a word -----

  /** `w & (1 << k)` is not zero. */
  predicate Bit(w: nat, k: nat) {
    if k == 0 then w % 2 == 1 else Bit(w / 2, k - 1)
  }

  /** `w | (1 << k)`. */
  function OrBit(w: nat, k: nat): nat {
    if k == 0 then w + 1 - w % 2 else 2 * OrBit(w / 2, k - 1) + w % 2
  }

  function Pow2(n: nat): nat {
    if n == 0 then 1 else 2 * Pow2(n - 1)
  }

  lemma {:induction false} OrBitSets(w: nat, k: nat, j: nat)
    ensures Bit(OrBit(w, k), j) <==> Bit(w, j) || j == k
  {
    hide OrBit;
    OrBitHalves(w, k);
    if k > 0 && j > 0 {
      OrBitSets(w / 2, k - 1, j - 1);
    }
  }

  lemma OrBitHalves(w: nat, k: nat)
    ensures OrBit(w, k) / 2 == if k == 0 then w / 2 else OrBit(w / 2, k - 1)
    ensures OrBit(w, k) % 2 == if k == 0 then 1 else w % 2
  {
  }

  /** A word of `n` bits stays one. */
  lemma {:induction false} OrBitFits(w: nat, k: nat, n: nat)
    requires w < Pow2(n) && k < n
    ensures OrBit(w, k) < Pow2(n)
  {
    var p := Pow2(n - 1);
    assert w < 2 * p && w / 2 < p;
    if k > 0 {
      OrBitFits(w / 2, k - 1, n - 1);
      var x := OrBit(w / 2, k - 1);
      assert x <= p - 1;
    }
  }

  lemma Pow2OfSixteen()
    ensures Pow2(16) == TWO_16
  {
    assert Pow2(4) == 16;
    assert Pow2(8) == 256;
    assert Pow2(12) == 4096;
  }

  lemma {:induction false} ZeroHasNoBits(k: nat)
    ensures !Bit(0, k)
  {
    if k > 0 {
      ZeroHasNoBits(k - 1);
    }
  }

  /** `w | (1 << (id & 0x000F))` in sixteen bits. */
  function SetBit(w: Word, id: Word): Word {
    Pow2OfSixteen();
    OrBitFits(w, id % 16, 16);
    OrBit(w, id % 16)
  }

  /** SQL_FUNC_EXISTS: how an application tests the bit vector. */
  predicate BitSet(words: seq<Word>, id: Word)
    requires WordOf(id) < |words|
  {
    Bit(words[WordOf(id)], id % 16)
  }

  /** Ids the bit vector has room for: below 4000. */
  predicate Fits(id: Word) {
    id < 4000
  }

  predicate AllFit(ids: seq<Word>) {
    forall i :: 0 <= i < |ids| ==> Fits(ids[i])
  }

  /** One round of the loop: the bit of `id` is set, and every other bit is as before. */
  lemma SetBitIs(words: seq<Word>, id: Word, q: Word)
    requires Fits(id) && Fits(q) && |words| >= SQL_API_ODBC3_ALL_FUNCTIONS_SIZE
    ensures BitSet(words[WordOf(id) := SetBit(words[WordOf(id)], id)], q) <==> BitSet(words, q) || id == q
  {
    hide Bit, OrBit;
    if WordOf(id) == WordOf(q) {
      OrBitSets(words[WordOf(id)], id % 16, q % 16);
    }
  }

  /** The bit vector answers for exactly the ids of a list. */
  ghost predicate BitsAre(words: seq<Word>, ids: seq<Word>)
    requires |words| >= SQL_API_ODBC3_ALL_FUNCTIONS_SIZE
  {
    forall q: Word :: Fits(q) ==> (BitSet(words, q) <==> q in ids)
  }

  lemma BitsNone(words: seq<Word>)
    requires |words| >= SQL_API_ODBC3_ALL_FUNCTIONS_SIZE
    requires forall k :: 0 <= k < SQL_API_ODBC3_ALL_FUNCTIONS_SIZE ==> words[k] == 0
    ensures BitsAre(words, [])
  {
    hide Bit;
    forall q: Word | Fits(q)
      ensures !BitSet(words, q)
    {
      ZeroHasNoBits(q % 16);
    }
  }

  lemma BitsExtend(words: seq<Word>, ids: seq<Word>, i: nat)
    requires |words| >= SQL_API_ODBC3_ALL_FUNCTIONS_SIZE && i < |ids| && AllFit(ids) && BitsAre(words, ids[..i])
    ensures BitsAre(words[WordOf(ids[i]) := SetBit(words[WordOf(ids[i])], ids[i])], ids[..i + 1])
  {
    hide BitSet, SetBit;
    forall q: Word | Fits(q)
      ensures BitSet(words[WordOf(ids[i]) := SetBit(words[WordOf(ids[i])], ids[i])], q) <==> q in ids[..i + 1]
    {
      SetBitIs(words, ids[i], q);
      assert ids[..i + 1] == ids[..i] + [ids[i]];
    }
  }

  /** SQL_API_ODBC3_ALL_FUNCTIONS: clear the 4000 bits, then set those of the supported functions. */
  method FillBits(ids: seq<Word>, pfExists: array<Word>)
    requires AllFit(ids) && pfExists.Length >= SQL_API_ODBC3_ALL_FUNCTIONS_SIZE
    modifies pfExists
    ensures BitsAre(pfExists[..], ids)
    ensures pfExists[SQL_API_ODBC3_ALL_FUNCTIONS_SIZE..] == old(pfExists[SQL_API_ODBC3_ALL_FUNCTIONS_SIZE..])
  {
    hide BitsAre, SetBit, BitSet;
    forall k | 0 <= k < SQL_API_ODBC3_ALL_FUNCTIONS_SIZE {
      pfExists[k] := 0;
    }
    BitsNone(pfExists[..]);
    var index := 0;
    assert ids[..0] == [];
    while index < |ids|
      invariant 0 <= index <= |ids|
      invariant BitsAre(pfExists[..], ids[..index])
      invariant pfExists[SQL_API_ODBC3_ALL_FUNCTIONS_SIZE..] == old(pfExists[SQL_API_ODBC3_ALL_FUNCTIONS_SIZE..])
    {
      var id := ids[index];
      assert Fits(id);
      BitsExtend(pfExists[..], ids, index);
      ghost var words := pfExists[..];
      pfExists[WordOf(id)] := SetBit(pfExists[WordOf(id)], id);
      assert pfExists[..] == words[WordOf(id) := SetBit(words[WordOf(id)], id)];
      index := index + 1;
    }
    assert ids[..index] == ids;
  }

  /** The hundred-entry array answers for exactly the ids below 100. */
  predicate EntriesAre(entries: seq<Word>, ids: seq<Word>)
    requires |entries| >= 100
  {
    forall k :: 0 <= k < 100 ==> entries[k] == if k in ids then 1 else 0
  }

  method FillEntries(ids: seq<Word>, pfExists: array<Word>)
    requires pfExists.Length >= 100
    modifies pfExists
    ensures EntriesAre(pfExists[..], ids)
    ensures pfExists[100..] == old(pfExists[100..])
  {
    forall k | 0 <= k < 100 {
      pfExists[k] := 0;
    }
    var index := 0;
    while index < |ids|
      invariant 0 <= index <= |ids|
      invariant EntriesAre(pfExists[..], ids[..index])
      invariant pfExists[100..] == old(pfExists[100..])
    {
      var id := ids[index];
      assert ids[..index + 1] == ids[..index] + [id];
      if id < 100 {
        pfExists[id] := SQL_TRUE;
      }
      index := index + 1;
    }
    assert ids[..index] == ids;
  }

  method Supports(ids: seq<Word>, fFunction: Word) returns (answer: Word)
    ensures answer == if fFunction in ids then 1 else 0
  {
    answer := SQL_FALSE;
    var index := 0;
    while index < |ids|
      invariant 0 <= index <= |ids|
      invariant fFunction !in ids[..index]
    {
      if ids[index] == fFunction {
        return SQL_TRUE;
      }
      index := index + 1;
    }
  }

  /** The words an application provides for the answer. */
  function AnswerSize(fFunction: Word): nat {
    if fFunction == 999 then 250
    else if fFunction == 0 then 100
    else 1
  }

  method SqlGetFunctions(hdbc: bool, ids: seq<Word>, fFunction: Word, pfExists: array?<Word>) returns (code: Code)
    requires AllFit(ids)
    requires hdbc && pfExists != null ==> pfExists.Length >= AnswerSize(fFunction)
    modifies pfExists
    ensures code == if hdbc && pfExists != null then Success else InvalidHandle
    ensures !hdbc && pfExists != null ==> pfExists[..] == old(pfExists[..])
    ensures hdbc && pfExists != null ==>
      if fFunction == 999 then BitsAre(pfExists[..], ids)
      else if fFunction == 0 then EntriesAre(pfExists[..], ids)
      else pfExists[0] == if fFunction in ids then 1 else 0
  {
    if !hdbc || pfExists == null {
      return InvalidHandle;
    }
    if fFunction == SQL_API_ODBC3_ALL_FUNCTIONS {
      FillBits(ids, pfExists);
    } else if fFunction == SQL_API_ALL_FUNCTIONS {
      FillEntries(ids, pfExists);
    } else {
      pfExists[0] := Supports(ids, fFunction);
    }
    return Success;
  }

  /** The array and the bit vector for one list agree on every id below 100. */
  lemma AnswersAgree(words: seq<Word>, entries: seq<Word>, ids: seq<Word>, id: Word)
    requires |words| >= SQL_API_ODBC3_ALL_FUNCTIONS_SIZE && |entries| >= 100 && id < 100
    requires BitsAre(words, ids) && EntriesAre(entries, ids)
    ensures BitSet(words, id) <==> entries[id] == 1
  {
    hide BitSet, SetBit;
    assert Fits(id);
  }
}
