/** Printing binary data as a table of Lua string literals (lua/upbc.cc), and the reader of such
    literals from section 3.1 of the Lua 5.4 Reference Manual. */
module LuaPrinter {
  import opened Options
  import opened Sequences
  import opened Varints

  const COLUMNS := 72

  // ---------- reading ----------

  function HexValue(c: char): Option<nat> {
    if '0' <= c <= '9' then Some(c as int - '0' as int)
    else if 'A' <= c <= 'F' then Some(c as int - 'A' as int + 10)
    else if 'a' <= c <= 'f' then Some(c as int - 'a' as int + 10)
    else None
  }

  /** The bytes of a literal up to its closing quote, and the text after the quote. */
  function ReadBody(s: string): (r: Option<(seq<Byte>, string)>)
    ensures r.Some? ==> |r.value.1| < |s|
    decreases |s|
  {
    if s == [] || s[0] == '\n' || s[0] as int >= 256 then None
    else if s[0] == '\'' then Some(([], s[1..]))
    else if s[0] != '\\' then Cons(s[0] as int, ReadBody(s[1..]))
    else if |s| >= 2 && (s[1] == '\\' || s[1] == '\'') then Cons(s[1] as int, ReadBody(s[2..]))
    else if |s| >= 4 && s[1] == 'x' then
      match (HexValue(s[2]), HexValue(s[3]))
      case (Some(hi), Some(lo)) => Cons(16 * hi + lo, ReadBody(s[4..]))
      case _ => None
    else None
  }

  function Cons(b: Byte, r: Option<(seq<Byte>, string)>): Option<(seq<Byte>, string)> {
    match r
    case Some((bytes, rest)) => Some(([b] + bytes, rest))
    case None => None
  }

  function ReadLiteral(s: string): (r: Option<(seq<Byte>, string)>)
    ensures r.Some? ==> |r.value.1| < |s|
  {
    if s != [] && s[0] == '\'' then ReadBody(s[1..]) else None
  }

  /** The literals of the table, one to a line, concatenated. */
  function ReadTable(s: string): Option<seq<Byte>>
    decreases |s|
  {
    if s == [] then Some([])
    else if |s| < 2 || s[..2] != "  " then None
    else match ReadLiteral(s[2..])
      case None => None
      case Some((bytes, rest)) =>
        if |rest| < 2 || rest[..2] != ",\n" then None
        else match ReadTable(rest[2..])
          case None => None
          case Some(more) => Some(bytes + more)
  }

  // ---------- printing ----------

  predicate IsPrint(b: Byte) {
    0x20 <= b < 0x7F
  }

  function HexDigit(d: nat): char
    requires d < 16
  {
    if d < 10 then ('0' as int + d) as char else ('A' as int + (d - 10)) as char
  }

  /** What one byte is printed as. */
  function Escape(b: Byte): string {
    if b == 0x5C then "\\\\"
    else if b == 0x27 then "\\'"
    else if IsPrint(b) then [b as char]
    else "\\x" + [HexDigit(b / 16)] + [HexDigit(b % 16)]
  }

  function Columns(b: Byte): nat {
    if IsPrint(b) then 1 else 4
  }

  /** The columns a literal is charged. */
  function Charged(bytes: seq<Byte>): nat {
    if bytes == [] then 0 else Charged(bytes[..|bytes| - 1]) + Columns(bytes[|bytes| - 1])
  }

  function EscapeAll(bytes: seq<Byte>): string {
    if bytes == [] then "" else EscapeAll(bytes[..|bytes| - 1]) + Escape(bytes[|bytes| - 1])
  }

  function Literal(bytes: seq<Byte>): string {
    "'" + EscapeAll(bytes) + "'"
  }

  /** Printable ASCII stands for itself but for the backslash and the quote, which get a backslash; any other
      byte is `\\x` and two upper-case hexadecimal digits. */
  lemma ByteForms(b: Byte)
    ensures b == 92 ==> Escape(b) == "\\\\"
    ensures b == 39 ==> Escape(b) == "\\'"
    ensures 32 <= b <= 126 && b != 92 && b != 39 ==> Escape(b) == [b as char] && Columns(b) == 1
    ensures b < 32 || b > 126 ==>
      Escape(b) == "\\x" + ["0123456789ABCDEF"[b / 16]] + ["0123456789ABCDEF"[b % 16]] && Columns(b) == 4
  {
    UpperHex(b / 16);
    UpperHex(b % 16);
  }

  lemma UpperHex(d: nat)
    requires d < 16
    ensures HexDigit(d) == "0123456789ABCDEF"[d]
  {
  }

  lemma HexDigitReads(d: nat)
    requires d < 16
    ensures HexValue(HexDigit(d)) == Some(d)
  {
  }

  lemma HexReads(b: Byte, tail: string)
    ensures ReadBody("\\x" + [HexDigit(b / 16)] + [HexDigit(b % 16)] + tail) == Cons(b, ReadBody(tail))
  {
    var s := "\\x" + [HexDigit(b / 16)] + [HexDigit(b % 16)] + tail;
    HexDigitReads(b / 16);
    HexDigitReads(b % 16);
    assert s[0] == '\\' && s[1] == 'x' && s[2] == HexDigit(b / 16) && s[3] == HexDigit(b % 16);
    assert s[4..] == tail;
  }

  lemma CharReads(c: char, tail: string)
    requires 0x20 <= c as int < 0x7F
    ensures c != '\\' && c != '\'' ==> ReadBody([c] + tail) == Cons(c as int, ReadBody(tail))
    ensures c == '\\' || c == '\'' ==> ReadBody("\\" + [c] + tail) == Cons(c as int, ReadBody(tail))
  {
    assert ([c] + tail)[1..] == tail;
    var s := "\\" + [c] + tail;
    assert s[0] == '\\' && s[1] == c && s[2..] == tail;
  }

  lemma EscapeReads(b: Byte, tail: string)
    ensures ReadBody(Escape(b) + tail) == Cons(b, ReadBody(tail))
  {
    if IsPrint(b) {
      CharReads(b as char, tail);
      assert b == 0x5C ==> Escape(b) == "\\" + [b as char];
      assert b == 0x27 ==> Escape(b) == "\\" + [b as char];
    } else {
      HexReads(b, tail);
    }
  }

  function Prepend(bytes: seq<Byte>, r: Option<(seq<Byte>, string)>): Option<(seq<Byte>, string)> {
    match r
    case Some((more, rest)) => Some((bytes + more, rest))
    case None => None
  }

  lemma PrependLast(init: seq<Byte>, last: Byte, r: Option<(seq<Byte>, string)>)
    ensures Prepend(init, Cons(last, r)) == Prepend(init + [last], r)
  {
    if r.Some? { assert init + ([last] + r.value.0) == init + [last] + r.value.0; }
  }

  lemma PrependNone(r: Option<(seq<Byte>, string)>)
    ensures Prepend([], r) == r
  {
    if r.Some? { assert [] + r.value.0 == r.value.0; }
  }

  lemma {:induction false} EscapeAllReads(bytes: seq<Byte>, tail: string)
    ensures ReadBody(EscapeAll(bytes) + tail) == Prepend(bytes, ReadBody(tail))
    decreases |bytes|
  {
    if bytes == [] {
      assert EscapeAll(bytes) + tail == tail;
      PrependNone(ReadBody(tail));
    } else {
      var init, last := bytes[..|bytes| - 1], bytes[|bytes| - 1];
      var middle := Escape(last) + tail;
      EscapeAllReads(init, middle);
      EscapeReads(last, tail);
      PrependLast(init, last, ReadBody(tail));
      Associative(EscapeAll(init), Escape(last), tail);
      assert init + [last] == bytes;
    }
  }

  lemma EscapeNext(bytes: seq<Byte>, n: nat, before: string, after: string)
    requires n < |bytes| && after == EscapeAll(bytes[..n]) + Escape(bytes[n])
    ensures after == EscapeAll(bytes[..n + 1])
    ensures |after| <= |EscapeAll(bytes[..n])| + 4 && |after| <= |EscapeAll(bytes[..n])| + 2 * Columns(bytes[n])
    ensures before + EscapeAll(bytes[..n]) + Escape(bytes[n]) == before + after
    ensures Charged(bytes[..n + 1]) == Charged(bytes[..n]) + Columns(bytes[n])
  {
    assert bytes[..n + 1][..n] == bytes[..n];
  }

  /** Whatever the bytes, the printed literal ends where it was meant to and reads back as them. */
  lemma LiteralReadsBack(bytes: seq<Byte>, tail: string)
    ensures ReadLiteral(Literal(bytes) + tail) == Some((bytes, tail))
  {
    EscapeAllReads(bytes, "'" + tail);
    assert (Literal(bytes) + tail)[1..] == EscapeAll(bytes) + ("'" + tail);
    assert ("'" + tail)[1..] == tail;
    assert bytes + [] == bytes;
  }

  lemma CloseLiteral(before: string, escaped: string)
    ensures before + "'" + escaped + "'" == before + ("'" + escaped + "'")
  {
  }

  /** One line of the table. */
  function Line(chunk: seq<Byte>): string {
    "  " + Literal(chunk) + ",\n"
  }

  lemma LineAdded(before: string, chunk: seq<Byte>)
    ensures before + "  " + Literal(chunk) + ",\n" == before + Line(chunk)
  {
  }

  // ---------- the table ----------

  function Render(chunks: seq<seq<Byte>>): string {
    if chunks == [] then "" else Line(chunks[0]) + Render(chunks[1..])
  }

  function Flatten(chunks: seq<seq<Byte>>): seq<Byte> {
    if chunks == [] then [] else chunks[0] + Flatten(chunks[1..])
  }

  lemma OneChunk(c: seq<Byte>)
    ensures Render([c]) == Line(c) && Flatten([c]) == c
  {
    assert [c][1..] == [];
    assert Render([]) == "" && Line(c) + "" == Line(c);
    assert Flatten([c][1..]) == [] && c + [] == c;
  }

  lemma {:induction false} RenderAppend(chunks: seq<seq<Byte>>, c: seq<Byte>)
    ensures Render(chunks + [c]) == Render(chunks) + Line(c)
    ensures Flatten(chunks + [c]) == Flatten(chunks) + c
    decreases |chunks|
  {
    if chunks == [] {
      assert chunks + [c] == [c] && [c][1..] == [];
      OneChunk(c);
    } else {
      RenderAppend(chunks[1..], c);
      assert (chunks + [c])[1..] == chunks[1..] + [c];
      Associative(Line(chunks[0]), Render(chunks[1..]), Line(c));
      Associative(chunks[0], Flatten(chunks[1..]), c);
    }
  }

  lemma ChunkAdded(before: string, chunks: seq<seq<Byte>>, c: seq<Byte>, view: seq<Byte>, rest: seq<Byte>)
    requires view == c + rest
    ensures before + Render(chunks) + Line(c) == before + Render(chunks + [c])
    ensures Flatten(chunks) + view == Flatten(chunks + [c]) + rest
  {
    RenderAppend(chunks, c);
    Associative(before, Render(chunks), Line(c));
    Associative(Flatten(chunks), c, rest);
  }

  lemma LineReadsBack(c: seq<Byte>, more: string)
    ensures ReadTable(Line(c) + more) ==
      match ReadTable(more) case Some(data) => Some(c + data) case None => None
  {
    var s, rest := Line(c) + more, ",\n" + more;
    assert s == "  " + (Literal(c) + rest);
    assert s[..2] == "  " && s[2..] == Literal(c) + rest;
    LiteralReadsBack(c, rest);
    assert rest[..2] == ",\n" && rest[2..] == more;
  }

  /** The printed table reads back as the concatenation of its chunks. */
  lemma {:induction false} TableReadsBack(chunks: seq<seq<Byte>>)
    ensures ReadTable(Render(chunks)) == Some(Flatten(chunks))
    decreases |chunks|
  {
    if chunks != [] {
      TableReadsBack(chunks[1..]);
      LineReadsBack(chunks[0], Render(chunks[1..]));
    }
  }

  /** The printer's output, written in place. */
  class Printer {
    var text: string

    constructor ()
      ensures text == ""
    {
      text := "";
    }

    /** PrintHexDigit */
    method PrintHexDigit(digit: nat)
      requires digit < 16
      modifies this
      ensures text == old(text) + [HexDigit(digit)]
    {
      var c: char;
      if digit < 10 {
        c := ('0' as int + digit) as char;
      } else {
        c := ('A' as int + (digit - 10)) as char;
      }
      text := text + [c];
    }

    /** One pass of PrintString's loop. */
    method PrintByte(b: Byte)
      modifies this
      ensures text == old(text) + Escape(b)
    {
      if b == 0x5C {
        text := text + "\\\\";
      } else if b == 0x27 {
        text := text + "\\'";
      } else if IsPrint(b) {
        text := text + [b as char];
      } else {
        text := text + "\\x";
        PrintHexDigit(b / 16);
        PrintHexDigit(b % 16);
      }
    }

    /** PrintString: a literal for the first bytes of str, up to the one that uses up the columns;
        the rest of the view is returned. */
    method PrintString(maxCols: int, str: seq<Byte>) returns (rest: seq<Byte>, ghost n: nat)
      requires maxCols > 0
      modifies this
      ensures n <= |str| && rest == str[n..] && (str != [] ==> n > 0)
      ensures text == old(text) + Literal(str[..n])
      ensures rest == [] || Charged(str[..n]) >= maxCols
      ensures n > 0 ==> Charged(str[..n - 1]) < maxCols
      ensures rest == [] || 4 * n >= maxCols
      ensures |EscapeAll(str[..n])| <= 2 * maxCols + 2
    {
      var cols, k := maxCols, 0;
      text := text + "'";
      ghost var start, escaped := text, "";
      while cols > 0 && k < |str|
        invariant k <= |str| && cols <= maxCols && (k == 0 ==> cols == maxCols)
        invariant escaped == EscapeAll(str[..k]) && text == start + escaped
        invariant maxCols - cols == Charged(str[..k]) <= 4 * k
        invariant k > 0 ==> Charged(str[..k - 1]) < maxCols
        invariant |escaped| <= 2 * (maxCols - cols) && |escaped| <= 2 * maxCols + 2
      {
        var ch := str[k];
        PrintByte(ch);
        ghost var next := escaped + Escape(ch);
        EscapeNext(str, k, start, next);
        escaped := next;
        cols := cols - Columns(ch);
        k := k + 1;
      }
      text := text + "'";
      CloseLiteral(old(text), escaped);
      rest, n := str[k..], k;
    }

    /** The chunk loop of LuaGenerator::Generate: what it prints reads back as the data, in at most
        one chunk for every 18 bytes or part of 18 bytes, none over 146 characters between quotes. */
    method PrintTable(data: seq<Byte>) returns (ghost chunks: seq<seq<Byte>>)
      modifies this
      ensures text == old(text) + Render(chunks) && ReadTable(Render(chunks)) == Some(data)
      ensures |chunks| <= (|data| + 17) / 18
      ensures forall c | c in chunks :: 0 < |c| && |EscapeAll(c)| <= 146
    {
      var view := data;
      chunks := [];
      while view != []
        invariant text == old(text) + Render(chunks)
        invariant Flatten(chunks) + view == data
        invariant |chunks| <= if view == [] then (|data| + 17) / 18 else (|data| - |view|) / 18
        invariant forall c | c in chunks :: 0 < |c| && |EscapeAll(c)| <= 146
        decreases |view|
      {
        ghost var before := text;
        text := text + "  ";
        var rest; ghost var n;
        rest, n := PrintString(COLUMNS, view);
        text := text + ",\n";
        ghost var c := view[..n];
        LineAdded(before, c);
        TakeDrop(view, n);
        ChunkAdded(old(text), chunks, c, view, rest);
        chunks := chunks + [c];
        view := rest;
      }
      TableReadsBack(chunks);
      assert Flatten(chunks) + [] == Flatten(chunks);
    }
  }
}
