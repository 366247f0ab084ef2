/** The text form of a MAC address. */
module MacText {
  import opened Machine
  import opened Net
  import opened Text

  datatype MacParseError = MacParseError(text: string)

  const SEPARATORS: set<char> := {':', '-'}

  /** The bytes as two lower-case hexadecimal digits each, with a colon between them. */
  function PrintBytes(m: seq<u8>): string
    requires m != []
  {
    var n := |m| - 1;
    if n == 0 then Hex2(m[0]) else PrintBytes(m[..n]) + ":" + Hex2(m[n])
  }

  /** `Display`. */
  function Print(m: MacAddr): string {
    PrintBytes(m)
  }

  /** `u8::from_str_radix(piece, 16)`, as a list of one byte or none. */
  function Byte(piece: string): seq<u8> {
    var b := FromStrRadix(piece, 16, 255);
    if b.Some? then [b.value as u8] else []
  }

  /** The bytes among the pieces, in order; pieces that are no hexadecimal byte are left out. */
  function Bytes(pieces: seq<string>): seq<u8> {
    if pieces == [] then [] else var n := |pieces| - 1; Bytes(pieces[..n]) + Byte(pieces[n])
  }

  /** The pieces between the separators. */
  function Pieces(s: string): seq<string> {
    Split(s, SEPARATORS)
  }

  /** `from_str`. */
  function Parse(s: string): Result<MacAddr, MacParseError> {
    var u8s := Bytes(Pieces(s));
    if |u8s| == 6 then Ok(u8s) else Err(MacParseError(s))
  }

  lemma {:induction false} BytesConcat(a: seq<string>, b: seq<string>)
    ensures Bytes(a + b) == Bytes(a) + Bytes(b)
    decreases |b|
  {
    if b == [] {
      assert a + b == a;
    } else {
      assert (a + b)[..|a + b| - 1] == a + b[..|b| - 1];
      BytesConcat(a, b[..|b| - 1]);
    }
  }

  /** Two texts joined by a separator hold the bytes of the one and then of the other. */
  lemma BytesAround(a: string, c: char, b: string)
    requires c == ':' || c == '-'
    ensures Bytes(Pieces(a + [c] + b)) == Bytes(Pieces(a)) + Bytes(Pieces(b))
  {
    SplitAround(a, c, b, SEPARATORS);
    BytesConcat(Pieces(a), Pieces(b));
  }

  lemma ByteOfHex(b: u8)
    ensures Bytes(Pieces(Hex2(b))) == [b]
  {
    SplitFree(Hex2(b), SEPARATORS);
    HexParses(b);
    assert [Hex2(b)][..0] == [];
  }

  lemma {:induction false} PrintedBytes(m: seq<u8>)
    requires m != []
    ensures Bytes(Pieces(PrintBytes(m))) == m
  {
    var n := |m| - 1;
    ByteOfHex(m[n]);
    if n == 0 {
      assert m == [m[0]];
    } else {
      var before := PrintBytes(m[..n]);
      PrintedBytes(m[..n]);
      BytesAround(before, ':', Hex2(m[n]));
      assert PrintBytes(m) == before + [':'] + Hex2(m[n]);
      LastApart(m);
    }
  }

  /** Parsing the printed form of an address gives it back. */
  lemma PrintParses(m: MacAddr)
    ensures Parse(Print(m)) == Ok(m)
  {
    PrintedBytes(m);
  }

  /** Piece `at[k]` is the hexadecimal byte `u8s[k]`, and no other piece is one. */
  ghost predicate BytesAt(pieces: seq<string>, at: seq<nat>, u8s: seq<u8>) {
    && |at| == |u8s|
    && (forall k :: 0 <= k < |at| ==> at[k] < |pieces| && Byte(pieces[at[k]]) == [u8s[k]])
    && (forall j, k :: 0 <= j < k < |at| ==> at[j] < at[k])
    && (forall i :: 0 <= i < |pieces| && Byte(pieces[i]) != [] ==> i in at)
  }

  lemma {:induction false} Positions(pieces: seq<string>) returns (at: seq<nat>)
    ensures BytesAt(pieces, at, Bytes(pieces))
  {
    at := [];
    if pieces != [] {
      var n := |pieces| - 1;
      at := Positions(pieces[..n]);
      OneMorePiece(pieces, at, Bytes(pieces[..n]));
      at := at + if Byte(pieces[n]) == [] then [] else [n];
    }
  }

  lemma OneMorePiece(pieces: seq<string>, at: seq<nat>, u8s: seq<u8>)
    requires pieces != [] && BytesAt(pieces[..|pieces| - 1], at, u8s)
    ensures var n := |pieces| - 1;
            BytesAt(pieces, at + (if Byte(pieces[n]) == [] then [] else [n]), u8s + Byte(pieces[n]))
  {
    var n := |pieces| - 1;
    if Byte(pieces[n]) == [] {
      assert at + [] == at && u8s + [] == u8s;
    } else {
      assert forall i :: i in at + [n] <==> i in at || i == n;
    }
    assert forall i :: 0 <= i < n ==> pieces[..n][i] == pieces[i];
  }

  /** Over all texts: parsing gives the address `m` exactly when just six of the pieces
      between the separators are hexadecimal bytes and they are those of `m`, in order. */
  lemma ParsesIffSixBytes(s: string, m: MacAddr)
    ensures Parse(s) == Ok(m) <==> exists at: seq<nat> :: BytesAt(Pieces(s), at, m)
    ensures Parse(s).Err? ==> Parse(s).error.text == s
    ensures Pieces(s) == Split(s, {':', '-'})
  {
    var pieces := Pieces(s);
    var at := Positions(pieces);
    forall other: seq<nat> | BytesAt(pieces, other, m)
      ensures Bytes(pieces) == m
    {
      assert forall i :: i in at <==> i in other;
      SortedSame(at, other);
    }
    if Bytes(pieces) == m {
      assert BytesAt(pieces, at, m);
    }
  }

  lemma LastIn(s: seq<nat>)
    ensures s != [] ==> s[|s| - 1] in s
  {
  }

  /** A set of numbers has one ascending order. */
  lemma {:induction false} SortedSame(at: seq<nat>, bt: seq<nat>)
    requires forall j, k :: 0 <= j < k < |at| ==> at[j] < at[k]
    requires forall j, k :: 0 <= j < k < |bt| ==> bt[j] < bt[k]
    requires forall i :: i in at <==> i in bt
    ensures at == bt
    decreases |at|
  {
    LastIn(at);
    LastIn(bt);
    if at != [] && bt != [] {
      var m, n := |at| - 1, |bt| - 1;
      assert at[m] == bt[n];
      assert forall i :: i in at <==> i in at[..m] || i == at[m];
      assert forall i :: i in bt <==> i in bt[..n] || i == bt[n];
      SortedSame(at[..m], bt[..n]);
    }
  }

  /** Text without a valid byte may be added at either end. */
  lemma {:induction false} JunkIsIgnored(s: string, c: char, junk: string)
    requires (c == ':' || c == '-') && Bytes(Pieces(junk)) == []
    ensures Bytes(Pieces(s + [c] + junk)) == Bytes(Pieces(s))
    ensures Bytes(Pieces(junk + [c] + s)) == Bytes(Pieces(s))
  {
    BytesAround(s, c, junk);
    BytesAround(junk, c, s);
  }
}
