/**
 * The SSLProperties string of a DSN: several settings are packed into one comma-separated list of key=value pieces,
 * and taken apart again on load.
 */
module SslProperties {
  import opened OdbcTypes
  import opened Texts

  datatype Piece = Piece(key: string, value: string)

  function SpellPiece(p: Piece): string {
    p.key + "=" + p.value
  }

  function Pack(pieces: seq<Piece>): string {
    if pieces == [] then ""
    else if |pieces| == 1 then SpellPiece(pieces[0])
    else SpellPiece(pieces[0]) + "," + Pack(pieces[1..])
  }

  /** The pieces a splitting pass has taken, and whether it went on to the end or threw. */
  datatype Split = Split(pieces: seq<Piece>, completed: bool)

  /**
   * The splitting loop, from the start of a piece on. A piece without '=' is an invalid string range unless it is the
   * last one, which becomes a key without a value.
   */
  function Unpack(s: string): (r: Split)
    decreases |s|
  {
    var comma := Find(s, ',');
    var piece := s[..comma];
    var equals := Find(piece, '=');
    if equals == comma && comma < |s| then Split([], false)
    else
      var p := if equals < comma then Piece(piece[..equals], piece[equals + 1..]) else Piece(s, "");
      if comma == |s| then Split([p], true)
      else
        var rest := Unpack(s[comma + 1..]);
        Split([p] + rest.pieces, rest.completed)
  }

  /** There is an equals sign between position `i` and the comma before it. */
  predicate EqualsBefore(s: string, i: int) {
    exists j :: 0 <= j < i <= |s| && s[j] == '=' && forall l :: j <= l < i ==> s[l] != ','
  }

  /** Every piece but the last one has an equals sign. */
  predicate KeysAllNamed(s: string) {
    forall i :: 0 <= i < |s| && s[i] == ',' ==> EqualsBefore(s, i)
  }

  /** Splitting runs to its end exactly then. */
  lemma {:induction false} UnpackCompletesIff(s: string)
    ensures Unpack(s).completed <==> KeysAllNamed(s)
    decreases |s|
  {
    hide KeysAllNamed;
    var comma := Find(s, ',');
    var equals := Find(s[..comma], '=');
    if comma == |s| {
      NoCommas(s);
    } else {
      FirstPiece(s, comma, equals);
      CommasSplit(s, comma);
      UnpackCompletesIff(s[comma + 1..]);
    }
  }

  lemma NoCommas(s: string)
    requires forall i :: 0 <= i < |s| ==> s[i] != ','
    ensures KeysAllNamed(s)
  {
  }

  lemma FirstPiece(s: string, comma: nat, equals: nat)
    requires equals <= comma < |s| && forall i :: 0 <= i < comma ==> s[i] != ','
    requires (forall i :: 0 <= i < equals ==> s[..comma][i] != '=') && (equals < comma ==> s[..comma][equals] == '=')
    ensures EqualsBefore(s, comma) <==> equals < comma
  {
    if equals < comma {
      assert s[equals] == '=';
    } else {
      assert forall i :: 0 <= i < comma ==> s[i] == s[..comma][i];
    }
  }

  lemma CommasSplit(s: string, comma: nat)
    requires comma < |s| && s[comma] == ',' && forall i :: 0 <= i < comma ==> s[i] != ','
    ensures KeysAllNamed(s) <==> EqualsBefore(s, comma) && KeysAllNamed(s[comma + 1..])
  {
    hide EqualsBefore;
    var t, k := s[comma + 1..], comma + 1;
    forall i | k <= i < |s|
      ensures EqualsBefore(s, i) <==> EqualsBefore(t, i - k)
    {
      EqualsBehind(s, k, i);
    }
    if KeysAllNamed(s) {
      forall i | 0 <= i < |t| && t[i] == ','
        ensures EqualsBefore(t, i)
      {
        assert s[i + k] == ',' && EqualsBefore(s, i + k);
      }
    }
    if EqualsBefore(s, comma) && KeysAllNamed(t) {
      forall i | 0 <= i < |s| && s[i] == ','
        ensures EqualsBefore(s, i)
      {
        if i != comma {
          assert t[i - k] == ',' && EqualsBefore(t, i - k);
        }
      }
    }
  }

  lemma EqualsBehind(s: string, k: nat, i: nat)
    requires 0 < k <= i < |s| && s[k - 1] == ','
    ensures EqualsBefore(s, i) <==> EqualsBefore(s[k..], i - k)
  {
    var t := s[k..];
    assert forall l :: k <= l < |s| ==> t[l - k] == s[l];
    if j :| 0 <= j < i && s[j] == '=' && forall l :: j <= l < i ==> s[l] != ',' {
      if j >= k {
        assert t[j - k] == '=';
      }
    }
    if j :| 0 <= j < i - k && t[j] == '=' && forall l :: j <= l < i - k ==> t[l] != ',' {
      assert s[j + k] == '=';
      assert forall l :: j + k <= l < i ==> s[l] == t[l - k];
    }
  }

  predicate ProperKey(p: Piece) {
    ',' !in p.key && '=' !in p.key
  }

  predicate ProperKeys(pieces: seq<Piece>) {
    forall i :: 0 <= i < |pieces| ==> ProperKey(pieces[i])
  }

  /** The piece up to the first comma of its value. */
  function Cut(p: Piece): Piece {
    Piece(p.key, p.value[..Find(p.value, ',')])
  }

  /** The text that a splitting pass sees: a packed piece, alone or followed by a comma and more. */
  function Followed(p: Piece, rest: Option<string>): string {
    SpellPiece(p) + (if rest.Some? then "," + rest.value else "")
  }

  /** Its first comma is the first one of the value, or else ends the piece. */
  lemma FirstComma(p: Piece, rest: Option<string>)
    requires ProperKey(p)
    ensures var s, comma := Followed(p, rest), |SpellPiece(Cut(p))|;
            Find(s, ',') == comma <= |s| && s[..comma] == SpellPiece(Cut(p))
  {
    if ',' in p.value {
      CommaInside(p, rest);
    } else {
      CutNothing(p);
      CommaBehind(p, rest);
    }
  }

  lemma CommaInside(p: Piece, rest: Option<string>)
    requires ProperKey(p) && ',' in p.value
    ensures var s, comma := Followed(p, rest), |SpellPiece(Cut(p))|;
            Find(s, ',') == comma <= |s| && s[..comma] == SpellPiece(Cut(p))
  {
    hide Find;
    var k, head, more := Find(p.value, ','), SpellPiece(Cut(p)), if rest.Some? then "," + rest.value else "";
    CommaFound(p.value);
    var tail := p.value[k + 1..] + more;
    CutApart(p.key + "=", p.value, k, more);
    assert ',' !in head;
    FindInConcat(head, ',', tail);
  }

  lemma CommaFound(v: string)
    requires ',' in v
    ensures Find(v, ',') < |v|
  {
  }

  lemma CutApart(key: string, v: string, k: nat, more: string)
    requires k < |v| && v[k] == ','
    ensures key + v + more == (key + v[..k]) + [','] + (v[k + 1..] + more)
  {
    assert v == v[..k] + [','] + v[k + 1..];
  }

  lemma CommaBehind(p: Piece, rest: Option<string>)
    requires ProperKey(p) && ',' !in p.value
    ensures var s, comma := Followed(p, rest), |SpellPiece(p)|;
            Find(s, ',') == comma <= |s| && s[..comma] == SpellPiece(p)
  {
    var s, head := Followed(p, rest), SpellPiece(p);
    assert ',' !in head;
    if rest.Some? {
      assert s == head + [','] + rest.value;
      FindInConcat(head, ',', rest.value);
    } else {
      assert s == head;
      FindNothing(s, ',');
    }
  }

  /** One pass of the loop takes the piece, cut at the first comma of its value. */
  lemma UnpackFirst(p: Piece, rest: Option<string>)
    requires ProperKey(p)
    ensures var u := Unpack(Followed(p, rest));
            && u.pieces != [] && u.pieces[0] == Cut(p)
            && (',' !in p.value && rest == None ==> u == Split([p], true))
            && (',' !in p.value && rest.Some? ==>
                  u == Split([p] + Unpack(rest.value).pieces, Unpack(rest.value).completed))
  {
    hide Find, SpellPiece;
    var s, c := Followed(p, rest), Cut(p);
    FirstComma(p, rest);
    var comma := Find(s, ',');
    EqualsOfPiece(c);
    if ',' !in p.value {
      CutNothing(p);
      if rest.Some? {
        ConcatAssociates(SpellPiece(p), ",", rest.value);
        assert s[comma + 1..] == rest.value;
      }
    }
  }

  lemma EqualsOfPiece(p: Piece)
    requires '=' !in p.key
    ensures var s := SpellPiece(p);
            Find(s, '=') == |p.key| < |s| && s[..|p.key|] == p.key && s[|p.key| + 1..] == p.value
  {
    assert SpellPiece(p) == p.key + ['='] + p.value;
    FindInConcat(p.key, '=', p.value);
  }

  lemma PackFollowed(pieces: seq<Piece>)
    requires pieces != []
    ensures Pack(pieces) == Followed(pieces[0], if |pieces| == 1 then None else Some(Pack(pieces[1..])))
  {
    hide SpellPiece;
    if |pieces| == 1 {
      assert SpellPiece(pieces[0]) + "" == SpellPiece(pieces[0]);
    } else {
      ConcatAssociates(SpellPiece(pieces[0]), ",", Pack(pieces[1..]));
    }
  }

  lemma CutNothing(p: Piece)
    requires ',' !in p.value
    ensures Cut(p) == p
  {
    FindNothing(p.value, ',');
  }

  /** Comma-free values are taken apart into exactly the packed pieces. */
  lemma {:induction false} UnpackPacked(pieces: seq<Piece>)
    requires pieces != [] && ProperKeys(pieces)
    requires forall i :: 0 <= i < |pieces| ==> ',' !in pieces[i].value
    ensures Unpack(Pack(pieces)) == Split(pieces, true)
    decreases |pieces|
  {
    hide Unpack, Pack, Followed;
    PackFollowed(pieces);
    if |pieces| == 1 {
      UnpackFirst(pieces[0], None);
    } else {
      UnpackFirst(pieces[0], Some(Pack(pieces[1..])));
      UnpackPacked(pieces[1..]);
      assert [pieces[0]] + pieces[1..] == pieces;
    }
  }

  /** With a comma in a value, the first such piece is cut at it, and nothing before it is lost. */
  lemma {:induction false} UnpackCut(pieces: seq<Piece>, k: nat)
    requires k < |pieces| && ProperKeys(pieces) && ',' in pieces[k].value
    requires forall i :: 0 <= i < k ==> ',' !in pieces[i].value
    ensures var u := Unpack(Pack(pieces)).pieces;
            |u| > k && u[..k] == pieces[..k] && u[k] == Cut(pieces[k])
    decreases |pieces|
  {
    hide Unpack, Pack, Followed, Cut;
    PackFollowed(pieces);
    if |pieces| == 1 {
      UnpackFirst(pieces[0], None);
    } else {
      UnpackFirst(pieces[0], Some(Pack(pieces[1..])));
      if k > 0 {
        UnpackCut(pieces[1..], k - 1);
        assert pieces[..k] == [pieces[0]] + pieces[1..][..k - 1];
      }
    }
  }

  /** Appending a piece to a packed list, as the printing code does it. */
  lemma {:induction false} PackAppends(pieces: seq<Piece>, p: Piece)
    requires pieces != []
    ensures Pack(pieces + [p]) == Pack(pieces) + "," + SpellPiece(p)
    decreases |pieces|
  {
    hide SpellPiece;
    var rest := pieces[1..];
    assert (pieces + [p])[1..] == rest + [p];
    if |pieces| > 1 {
      PackAppends(rest, p);
      ConcatAssociates(SpellPiece(pieces[0]) + ",", Pack(rest) + ",", SpellPiece(p));
      ConcatAssociates(SpellPiece(pieces[0]) + ",", Pack(rest), ",");
    }
  }

  // ----- choosing the pieces to pack -----

  datatype Candidate = Candidate(keep: bool, piece: Piece)

  function Kept(candidates: seq<Candidate>): seq<Piece> {
    if candidates == [] then []
    else if candidates[0].keep then [candidates[0].piece] + Kept(candidates[1..])
    else Kept(candidates[1..])
  }

  /** The value of the first piece with a key, or the empty string. */
  function FirstValue(pieces: seq<Piece>, k: string): string
    decreases |pieces|
  {
    if pieces == [] then "" else if pieces[0].key == k then pieces[0].value else FirstValue(pieces[1..], k)
  }

  lemma {:induction false} KeptOnly(candidates: seq<Candidate>, j: nat)
    requires j < |Kept(candidates)|
    ensures exists i :: 0 <= i < |candidates| && candidates[i].keep && candidates[i].piece == Kept(candidates)[j]
    decreases |candidates|
  {
    var n := if candidates[0].keep then 1 else 0;
    if j >= n {
      KeptOnly(candidates[1..], j - n);
      var i :| 0 <= i < |candidates[1..]| && candidates[1..][i].keep
            && candidates[1..][i].piece == Kept(candidates[1..])[j - n];
      assert candidates[i + 1] == candidates[1..][i];
    }
  }

  predicate DistinctKeys(candidates: seq<Candidate>) {
    forall i, j :: 0 <= i < j < |candidates| ==> candidates[i].piece.key != candidates[j].piece.key
  }

  /** A kept candidate is found under its key, and one that is left out is not. */
  lemma {:induction false} KeptValue(candidates: seq<Candidate>, i: nat)
    requires i < |candidates| && DistinctKeys(candidates)
    ensures FirstValue(Kept(candidates), candidates[i].piece.key)
         == if candidates[i].keep then candidates[i].piece.value else ""
    decreases |candidates|
  {
    var rest, k := candidates[1..], candidates[i].piece.key;
    if i > 0 {
      KeptValue(rest, i - 1);
      if candidates[0].keep {
        assert Kept(candidates)[1..] == Kept(rest);
      }
    } else {
      NoSuchKey(rest, k);
    }
  }

  lemma {:induction false} NoSuchKey(candidates: seq<Candidate>, k: string)
    requires forall i :: 0 <= i < |candidates| ==> candidates[i].piece.key != k
    ensures FirstValue(Kept(candidates), k) == ""
    decreases |candidates|
  {
    if candidates != [] {
      NoSuchKey(candidates[1..], k);
      if candidates[0].keep {
        assert Kept(candidates)[1..] == Kept(candidates[1..]);
      }
    }
  }

  /** Distinct candidates give distinct pieces. */
  lemma {:induction false} KeptDistinct(candidates: seq<Candidate>, i: nat, j: nat)
    requires DistinctKeys(candidates) && i < j < |Kept(candidates)|
    ensures Kept(candidates)[i].key != Kept(candidates)[j].key
    decreases |candidates|
  {
    var rest := candidates[1..];
    if !candidates[0].keep {
      KeptDistinct(rest, i, j);
    } else if i > 0 {
      KeptDistinct(rest, i - 1, j - 1);
    } else {
      KeptOnly(rest, j - 1);
    }
  }

  /** The first piece with a key decides. */
  lemma {:induction false} FirstValueAt(pieces: seq<Piece>, k: nat)
    requires k < |pieces| && forall i :: 0 <= i < k ==> pieces[i].key != pieces[k].key
    ensures FirstValue(pieces, pieces[k].key) == pieces[k].value
    decreases |pieces|
  {
    if k > 0 {
      FirstValueAt(pieces[1..], k - 1);
    }
  }
}
