/** The decoder program's loop: it tiles a buffer with instructions, reusing one instruction record. */
module Stream {
  import opened Options
  import opened Words
  import opened Isa
  import opened Grammar
  import opened GrammarFacts
  import opened Decoder

  type Reader = seq<byte> -> Decoded

  /** The instruction at the start of `s` is the one at the start of every `t` that begins with its bytes. */
  predicate SameStart(decode: Reader, s: seq<byte>, t: seq<byte>)
    requires decode(s).Decoded? ==> 0 < decode(s).len <= |s|
  {
    decode(s).Decoded? && decode(s).len <= |t| && t[..decode(s).len] == s[..decode(s).len] ==> decode(t) == decode(s)
  }

  /** What tiling needs of a decoder: an instruction is never empty and is decoded from its own bytes alone. */
  ghost predicate SelfDelimiting(decode: Reader) {
    && (forall s {:trigger decode(s)} :: decode(s).Decoded? ==> 0 < decode(s).len <= |s|)
    && forall s, t {:trigger SameStart(decode, s, t)} :: SameStart(decode, s, t)
  }

  lemma SameBytes(s: seq<byte>, t: seq<byte>, n: nat)
    requires n <= |s| && n <= |t| && t[..n] == s[..n]
    ensures forall k :: 0 <= k < n ==> s[k] == t[k]
  {
    assert forall k :: 0 <= k < n ==> s[k] == s[..n][k] && t[k] == t[..n][k];
  }

  lemma DecodeIsSelfDelimiting()
    ensures SelfDelimiting(Decode)
  {
    forall s | Decode(s).Decoded?
      ensures 0 < Decode(s).len <= |s|
    {
      DecodedIsWellFormed(s);
    }
    forall s, t
      ensures SameStart(Decode, s, t)
    {
      var d := Decode(s);
      if d.Decoded? && d.len <= |t| && t[..d.len] == s[..d.len] {
        SameBytes(s, t, d.len);
        DecodeReadsOnlyItsBytes(s, t);
      }
    }
  }

  /** The instructions of a stream, when the bytes are exactly a sequence of instructions. */
  function Tile(decode: Reader, s: seq<byte>): Option<seq<Decoded>>
    decreases |s|
  {
    if s == [] then Some([])
    else
      var d := decode(s);
      if !d.Decoded? || d.len == 0 || d.len > |s| then None
      else
        var rest := Tile(decode, s[d.len..]);
        if rest.None? then None else Some([d] + rest.value)
  }

  lemma FirstTile(decode: Reader, a: seq<byte>)
    requires a != [] && Tile(decode, a).Some?
    ensures var d := decode(a);
            && d.Decoded? && 0 < d.len <= |a|
            && Tile(decode, a[d.len..]).Some? && Tile(decode, a).value == [d] + Tile(decode, a[d.len..]).value
  {
  }

  lemma CutBefore(a: seq<byte>, b: seq<byte>, n: nat)
    requires n <= |a|
    ensures (a + b)[..n] == a[..n] && (a + b)[n..] == a[n..] + b
  {
  }

  /** The first instruction of a stream comes first whatever follows the stream. */
  lemma SameFirst(decode: Reader, a: seq<byte>, b: seq<byte>)
    requires SelfDelimiting(decode) && decode(a).Decoded?
    ensures decode(a + b) == decode(a) && 0 < decode(a).len <= |a|
    ensures (a + b)[decode(a).len..] == a[decode(a).len..] + b
  {
    CutBefore(a, b, decode(a).len);
    assert SameStart(decode, a, a + b);
  }

  lemma TileUnfolds(decode: Reader, s: seq<byte>)
    requires s != [] && decode(s).Decoded? && 0 < decode(s).len <= |s|
    ensures var rest := Tile(decode, s[decode(s).len..]);
            Tile(decode, s) == if rest.None? then None else Some([decode(s)] + rest.value)
  {
  }

  lemma Grouped<T>(d: T, x: seq<T>, y: seq<T>)
    ensures [d] + (x + y) == [d] + x + y
  {
  }

  /** Decoding a concatenation is decoding one part after the other. */
  lemma {:induction false} TileConcat(decode: Reader, a: seq<byte>, b: seq<byte>)
    requires SelfDelimiting(decode) && Tile(decode, a).Some?
    ensures Tile(decode, a + b)
            == if Tile(decode, b).None? then None else Some(Tile(decode, a).value + Tile(decode, b).value)
    decreases |a|
  {
    if a == [] {
      assert a + b == b;
      assert Tile(decode, b).Some? ==> [] + Tile(decode, b).value == Tile(decode, b).value;
    } else {
      var d := decode(a);
      FirstTile(decode, a);
      SameFirst(decode, a, b);
      TileUnfolds(decode, a + b);
      var rest := a[d.len..];
      TileConcat(decode, rest, b);
      if Tile(decode, b).Some? {
        Grouped(d, Tile(decode, rest).value, Tile(decode, b).value);
      }
    }
  }

  lemma TileOne(decode: Reader, s: seq<byte>)
    requires SelfDelimiting(decode) && decode(s).Decoded?
    ensures Tile(decode, s[..decode(s).len]) == Some([decode(s)])
  {
    var d := decode(s);
    var t := s[..d.len];
    assert t[..d.len] == t && SameStart(decode, s, t);
    assert t[d.len..] == [];
    assert [d] + [] == [d];
  }

  /** Cutting the view at `k` loses an instruction that does not fit. */
  lemma ShorterView(decode: Reader, s: seq<byte>, k: nat)
    requires SelfDelimiting(decode) && 0 < k <= |s| && !(decode(s).Decoded? && decode(s).len <= k)
    ensures Tile(decode, s[..k]).None?
  {
    var t := s[..k];
    assert forall i :: 0 <= i <= |t| ==> s[..i] == t[..i];
    assert SameStart(decode, t, s);
  }

  lemma TileExtends(decode: Reader, s: seq<byte>, at: nat, to: nat)
    requires SelfDelimiting(decode) && at <= to <= |s| && Tile(decode, s[..at]).Some?
    ensures Tile(decode, s[..to])
            == if Tile(decode, s[at..to]).None? then None
               else Some(Tile(decode, s[..at]).value + Tile(decode, s[at..to]).value)
  {
    assert s[..to] == s[..at] + s[at..to];
    TileConcat(decode, s[..at], s[at..to]);
  }

  /** One turn of the loop: the next instruction extends the tiling if it fits in the first `n` bytes, and otherwise
      those bytes are no sequence of instructions. */
  lemma NextTile(decode: Reader, s: seq<byte>, n: nat, at: nat)
    requires SelfDelimiting(decode) && at < n <= |s| && Tile(decode, s[..at]).Some?
    ensures var d := decode(s[at..]);
            if d.Decoded? && d.len <= n - at
            then Tile(decode, s[..at + d.len]) == Some(Tile(decode, s[..at]).value + [d])
            else Tile(decode, s[..n]).None?
  {
    var rest := s[at..];
    var d := decode(rest);
    if d.Decoded? && d.len <= n - at {
      TileOne(decode, rest);
      assert rest[..d.len] == s[at..at + d.len];
      TileExtends(decode, s, at, at + d.len);
    } else {
      ShorterView(decode, rest, n - at);
      assert rest[..n - at] == s[at..n];
      TileExtends(decode, s, at, n);
    }
  }

  datatype Status = Done | Unrecognized | Overrun | OutsideBuffer

  /** The printed records are those of the instructions. */
  ghost predicate Prints(printed: seq<Record>, tile: seq<Decoded>) {
    |printed| == |tile|
    && forall k :: 0 <= k < |tile| ==> tile[k].Decoded? && printed[k] == Flatten(tile[k].instr, tile[k].len)
  }

  ghost predicate IsDecode(decode: Reader) {
    forall s {:trigger Decode(s)} :: decode(s) == Decode(s)
  }

  /** Decodes one instruction; `outside` when that would read beyond the buffer. */
  method DecodeNext(buf: array<byte>, at: nat, inst: DecodedInstruction, ghost decode: Reader)
    returns (outside: bool, consumed: nat)
    requires at < buf.Length && IsDecode(decode)
    modifies inst
    ensures match decode(buf[..][at..])
            case ReadsPastEnd => outside
            case Unknown => !outside && consumed == 0
            case Decoded(i, len) => !outside && consumed == len && inst.Value() == Flatten(i, len)
  {
    assert buf[..][at..] == buf[at..];
    assert decode(buf[at..]) == Decode(buf[at..]);
    consumed := 0;
    outside := Decode(buf[at..]).ReadsPastEnd?;
    if !outside {
      consumed := DecodeBitstream(buf, at, inst);
    }
  }

  /** Decodes the first `n` bytes of `buf`; `printed` collects the printed records, and `at` is where it stopped.
      Bytes after the first `n` may be looked at, but never influence a completed run. `decode` is the grammar. */
  method DecodeStream(buf: array<byte>, n: nat, inst: DecodedInstruction, ghost decode: Reader)
    returns (status: Status, printed: seq<Record>, at: nat)
    requires n <= buf.Length && IsDecode(decode) && SelfDelimiting(decode)
    modifies inst
    ensures at <= n && Tile(decode, buf[..][..at]).Some?
    ensures status == Done <==> Tile(decode, buf[..][..n]).Some?
    ensures var tile := Tile(decode, buf[..][..at]).value;
            match status
            case Done => at == n && Prints(printed, tile)
            case Unrecognized => at < n && decode(buf[..][at..]).Unknown? && Prints(printed, tile)
            case OutsideBuffer => at < n && decode(buf[..][at..]).ReadsPastEnd? && Prints(printed, tile)
            case Overrun =>
              var d := decode(buf[..][at..]);
              at < n && d.Decoded? && d.len > n - at && Prints(printed, tile + [d])
  {
    var bytesAvailable: int := n;
    at := 0;
    printed := [];
    ghost var tile := [];
    while bytesAvailable > 0
      invariant 0 <= at <= n && bytesAvailable == n - at
      invariant Tile(decode, buf[..][..at]) == Some(tile) && Prints(printed, tile)
    {
      ghost var d := decode(buf[..][at..]);
      NextTile(decode, buf[..], n, at);
      var outside, consumed := DecodeNext(buf, at, inst, decode);
      if outside {
        return OutsideBuffer, printed, at;
      }
      if consumed == 0 {
        return Unrecognized, printed, at;
      }
      bytesAvailable := bytesAvailable - consumed;
      printed := printed + [inst.Value()];
      if bytesAvailable < 0 {
        return Overrun, printed, at;
      }
      at := at + consumed;
      tile := tile + [d];
    }
    return Done, printed, at;
  }
}
