/** The string operations that update_failure_list.py and ParseFailureList share, on text whose only
    line break is the newline and whose only blanks are those of C's isspace. */
module LineText {
  import opened Sequences

  predicate IsSpace(c: char) {
    c == ' ' || 9 <= c as int <= 13
  }

  /** Blanks are the space and the control characters that C calls white space. */
  lemma SpacesAre(c: char)
    ensures IsSpace(c) <==> c in {' ', '\t', '\n', 11 as char, 12 as char, '\r'}
  {
  }

  predicate Blank(s: string) {
    forall i | 0 <= i < |s| :: IsSpace(s[i])
  }

  function BeforeHash(s: string): string {
    s[..Find(s, '#')]
  }

  predicate HasHash(s: string) {
    Find(s, '#') < |s|
  }

  function AfterHash(s: string): string
    requires HasHash(s)
  {
    s[Find(s, '#') + 1..]
  }

  function LStrip(s: string): string {
    if s != [] && IsSpace(s[0]) then LStrip(s[1..]) else s
  }

  function RStrip(s: string): string {
    if s != [] && IsSpace(s[|s| - 1]) then RStrip(s[..|s| - 1]) else s
  }

  function Strip(s: string): string {
    RStrip(LStrip(s))
  }

  /** The test a line of a failure list names: what precedes any comment, stripped. */
  function NameOf(line: string): string {
    Strip(BeforeHash(line))
  }

  function RemoveSpaces(s: string): string {
    if s == [] then [] else (if IsSpace(s[0]) then [] else [s[0]]) + RemoveSpaces(s[1..])
  }

  lemma {:induction false} LStripAppend(x: string, y: string)
    ensures LStrip(x + y) == if Blank(x) then LStrip(y) else LStrip(x) + y
  {
    if x == [] {
      assert x + y == y;
    } else {
      assert (x + y)[1..] == x[1..] + y;
      LStripAppend(x[1..], y);
      assert Blank(x) <==> IsSpace(x[0]) && Blank(x[1..]) by {
        forall i | 0 <= i < |x| && IsSpace(x[0]) && Blank(x[1..]) ensures IsSpace(x[i]) {
          assert i > 0 ==> IsSpace(x[1..][i - 1]);
        }
      }
    }
  }

  lemma {:induction false} RStripAppend(x: string, y: string)
    ensures RStrip(x + y) == if Blank(y) then RStrip(x) else x + RStrip(y)
    decreases |y|
  {
    if y == [] {
      assert x + y == x;
    } else {
      var z := y[..|y| - 1];
      assert (x + y)[..|x + y| - 1] == x + z;
      RStripAppend(x, z);
      assert Blank(y) <==> IsSpace(y[|y| - 1]) && Blank(z) by {
        forall i | 0 <= i < |y| && IsSpace(y[|y| - 1]) && Blank(z) ensures IsSpace(y[i]) {
          assert i < |z| ==> IsSpace(z[i]);
        }
      }
    }
  }

  lemma {:induction false} LStripShape(s: string)
    ensures LStrip(s) == [] <==> Blank(s)
    ensures LStrip(s) != [] ==> !IsSpace(LStrip(s)[0])
  {
    LStripAppend(s, []);
    assert s + [] == s;
    if s != [] && IsSpace(s[0]) {
      LStripShape(s[1..]);
    }
    if Blank(s) { assert s != [] ==> IsSpace(s[0]); }
  }

  lemma {:induction false} RStripShape(s: string)
    ensures RStrip(s) == [] <==> Blank(s)
    ensures RStrip(s) != [] ==> !IsSpace(RStrip(s)[|RStrip(s)| - 1]) && RStrip(s)[0] == s[0]
    decreases |s|
  {
    if s != [] {
      var z := s[..|s| - 1];
      if IsSpace(s[|s| - 1]) {
        RStripShape(z);
        assert Blank(s) <==> Blank(z) by {
          forall i | 0 <= i < |s| && Blank(z) ensures IsSpace(s[i]) {
            assert i < |z| ==> IsSpace(z[i]);
          }
          forall i | 0 <= i < |z| && Blank(s) ensures IsSpace(z[i]) {
            assert IsSpace(s[i]);
          }
        }
      } else {
        assert !Blank(s);
      }
    }
  }

  /** A stripped string starts and ends with a character that is not blank. */
  lemma StripShape(s: string)
    ensures Strip(s) == [] <==> Blank(s)
    ensures Strip(s) != [] ==> !IsSpace(Strip(s)[0]) && !IsSpace(Strip(s)[|Strip(s)| - 1])
  {
    LStripShape(s);
    RStripShape(LStrip(s));
    if LStrip(s) != [] {
      assert !Blank(LStrip(s)) by { assert !IsSpace(LStrip(s)[0]); }
    }
  }

  /** Stripping twice, or stripping after adding blanks around, changes nothing. */
  lemma StripPadded(left: string, s: string, right: string)
    requires Blank(left) && Blank(right)
    ensures Strip(left + s + right) == Strip(s)
  {
    assert left + s + right == left + (s + right);
    LStripAppend(left, s + right);
    LStripAppend(s, right);
    if Blank(s) {
      LStripShape(s);
      LStripShape(right);
      StripShape(s);
    } else {
      RStripAppend(LStrip(s), right);
    }
  }

  lemma StripStripped(s: string)
    ensures Strip(Strip(s)) == Strip(s)
  {
    StripShape(s);
    var t := Strip(s);
    if t != [] {
      assert LStrip(t) == t && RStrip(t) == t;
    }
  }

  lemma {:induction false} RemoveSpacesAppend(x: string, y: string)
    ensures RemoveSpaces(x + y) == RemoveSpaces(x) + RemoveSpaces(y)
  {
    if x == [] {
      assert x + y == y;
    } else {
      assert (x + y)[1..] == x[1..] + y;
      RemoveSpacesAppend(x[1..], y);
    }
  }

  lemma {:induction false} RemoveSpacesBlank(s: string)
    ensures RemoveSpaces(s) == [] <==> Blank(s)
  {
    if s != [] {
      RemoveSpacesBlank(s[1..]);
      assert Blank(s) <==> IsSpace(s[0]) && Blank(s[1..]) by {
        forall i | 0 <= i < |s| && IsSpace(s[0]) && Blank(s[1..]) ensures IsSpace(s[i]) {
          assert i > 0 ==> IsSpace(s[1..][i - 1]);
        }
      }
    }
  }

  lemma {:induction false} RemoveSpacesLStrip(s: string)
    ensures RemoveSpaces(LStrip(s)) == RemoveSpaces(s)
  {
    if s != [] && IsSpace(s[0]) { RemoveSpacesLStrip(s[1..]); }
  }

  lemma {:induction false} RemoveSpacesRStrip(s: string)
    ensures RemoveSpaces(RStrip(s)) == RemoveSpaces(s)
    decreases |s|
  {
    if s != [] && IsSpace(s[|s| - 1]) {
      var z := s[..|s| - 1];
      RemoveSpacesRStrip(z);
      RemoveSpacesAppend(z, [s[|s| - 1]]);
      assert s == z + [s[|s| - 1]];
    }
  }

  lemma RemoveSpacesStrip(s: string)
    ensures RemoveSpaces(Strip(s)) == RemoveSpaces(s)
  {
    RemoveSpacesLStrip(s);
    RemoveSpacesRStrip(LStrip(s));
  }

  // ---------- order ----------

  /** Python's order on strings: by code point, a proper prefix first. */
  predicate Less(a: string, b: string) {
    b != [] && (a == [] || a[0] < b[0] || (a[0] == b[0] && Less(a[1..], b[1..])))
  }

  lemma {:induction false} LessTotal(a: string, b: string)
    ensures !Less(a, b) || !Less(b, a)
    ensures Less(a, b) || Less(b, a) || a == b
  {
    if a != [] && b != [] {
      LessTotal(a[1..], b[1..]);
      assert a[0] == b[0] && a[1..] == b[1..] ==> a == b by { assert a == [a[0]] + a[1..] && b == [b[0]] + b[1..]; }
    }
  }

  lemma {:induction false} AtMostTransitive(a: string, b: string, c: string)
    requires !Less(b, a) && !Less(c, b)
    ensures !Less(c, a)
  {
    if a != [] && b != [] && c != [] && a[0] == b[0] == c[0] {
      AtMostTransitive(a[1..], b[1..], c[1..]);
    }
  }
}
