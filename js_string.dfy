/**
 * The two JavaScript string built-ins the CSV import relies on:
 * `String.prototype.trim` and `String.prototype.split(',')`.
 * `Join` is the inverse of `Split` (`Array.prototype.join(',')`), used only as its partner.
 */
module JsString {

  /**
   * The ECMAScript WhiteSpace and LineTerminator code points, exactly what
   * `trim` strips, as inclusive ranges: tab to carriage return, space,
   * no-break space, ogham space mark, en quad to hair space, line and
   * paragraph separators, narrow no-break space, medium mathematical space,
   * ideographic space and the byte order mark.
   */
  const SpaceRanges: seq<(int, int)> := [
    (0x09, 0x0D), (0x20, 0x20), (0xA0, 0xA0), (0x1680, 0x1680), (0x2000, 0x200A),
    (0x2028, 0x2029), (0x202F, 0x202F), (0x205F, 0x205F), (0x3000, 0x3000), (0xFEFF, 0xFEFF)
  ]

  /** `code` lies in one of the `ranges`. */
  predicate InRanges(code: int, ranges: seq<(int, int)>) {
    ranges != [] && ((ranges[0].0 <= code <= ranges[0].1) || InRanges(code, ranges[1..]))
  }

  predicate IsSpace(c: char) {
    InRanges(c as int, SpaceRanges)
  }

  predicate AllSpace(s: string) {
    forall i :: 0 <= i < |s| ==> IsSpace(s[i])
  }

  /** Drops the leading white space: what is left is a suffix of `s` that is empty or starts with a non-space. */
  function TrimStart(s: string): (r: string)
    ensures |r| <= |s| && r == s[|s| - |r|..]
    ensures r != [] ==> !IsSpace(r[0])
  {
    if s != [] && IsSpace(s[0]) then TrimStart(s[1..]) else s
  }

  /** Drops the trailing white space: what is left is a prefix of `s` that is empty or ends with a non-space. */
  function TrimEnd(s: string): (r: string)
    ensures |r| <= |s| && r == s[..|r|]
    ensures r != [] ==> !IsSpace(r[|r| - 1])
  {
    if s != [] && IsSpace(s[|s| - 1]) then TrimEnd(s[..|s| - 1]) else s
  }

  /** What `TrimStart` drops is all white space. */
  lemma {:induction false} TrimStartStrips(s: string)
    ensures AllSpace(s[..|s| - |TrimStart(s)|])
  {
    if s != [] && IsSpace(s[0]) {
      TrimStartStrips(s[1..]);
      var k := |s[1..]| - |TrimStart(s[1..])|;
      forall i | 0 <= i < k + 1 ensures IsSpace(s[i]) {
        if i > 0 { assert s[i] == s[1..][..k][i - 1]; }
      }
    }
  }

  /** What `TrimEnd` drops is all white space. */
  lemma {:induction false} TrimEndStrips(s: string)
    ensures AllSpace(s[|TrimEnd(s)|..])
  {
    if s != [] && IsSpace(s[|s| - 1]) {
      var front := s[..|s| - 1];
      TrimEndStrips(front);
      var k := |TrimEnd(front)|;
      forall i | k <= i < |s| ensures IsSpace(s[i]) {
        if i < |s| - 1 { assert s[i] == front[k..][i - k]; }
      }
    }
  }

  /**
   * `s.trim()`: white space removed on both sides. What is left is empty or
   * starts and ends with a non-space character.
   */
  function Trim(s: string): (r: string)
    ensures r != [] ==> !IsSpace(r[0]) && !IsSpace(r[|r| - 1])
  {
    TrimEnd(TrimStart(s))
  }

  /** `Trim(s)` is the infix of `s` that starts where `TrimStart` stopped dropping. */
  lemma TrimInfix(s: string) returns (a: nat)
    ensures a == |s| - |TrimStart(s)|
    ensures a + |Trim(s)| <= |s| && s[a..a + |Trim(s)|] == Trim(s)
  {
    a := PrefixOfSuffix(s, TrimStart(s), Trim(s));
  }

  /** Around `Trim(s)` there is nothing but white space. */
  lemma TrimSurround(s: string)
    ensures AllSpace(s[..|s| - |TrimStart(s)|])
    ensures AllSpace(s[|s| - |TrimStart(s)| + |Trim(s)|..])
  {
    TrimStartStrips(s);
    TrimEndStrips(TrimStart(s));
    SpaceAfter(s, TrimStart(s), Trim(s));
  }

  /** A prefix `r` of a suffix `t` of `s` is an infix of `s`. */
  lemma PrefixOfSuffix<T>(s: seq<T>, t: seq<T>, r: seq<T>) returns (a: nat)
    requires |t| <= |s| && t == s[|s| - |t|..]
    requires |r| <= |t| && r == t[..|r|]
    ensures a == |s| - |t| && a + |r| <= |s| && s[a..a + |r|] == r
  {
    a := |s| - |t|;
    assert forall i :: 0 <= i < |r| ==> r[i] == t[i] == s[a + i];
  }

  /** White space after the prefix `r` of a suffix `t` of `s` is white space in `s`. */
  lemma SpaceAfter(s: string, t: string, r: string)
    requires |t| <= |s| && t == s[|s| - |t|..]
    requires |r| <= |t| && AllSpace(t[|r|..])
    ensures AllSpace(s[|s| - |t| + |r|..])
  {
    var a := |s| - |t|;
    forall i | a + |r| <= i < |s| ensures IsSpace(s[i]) {
      assert s[i] == t[|r|..][i - a - |r|];
    }
  }

  /** `trim` gives the empty string exactly when its input is all white space. */
  lemma TrimEmptyIff(s: string)
    ensures Trim(s) == [] <==> AllSpace(s)
  {
    var t := TrimStart(s);
    var a := |s| - |t|;
    if Trim(s) == [] {
      TrimStartStrips(s);
      TrimEndStrips(t);
      assert t == [] && s[..a] == s;
    } else {
      assert t[0] == s[a];
    }
  }

  /** A trimmed string is left alone by `Trim`, so `Trim` is idempotent. */
  lemma TrimTrimmed(t: string)
    requires t == [] || (!IsSpace(t[0]) && !IsSpace(t[|t| - 1]))
    ensures Trim(t) == t
  {
  }

  lemma TrimIdempotent(s: string)
    ensures Trim(Trim(s)) == Trim(s)
  {
    TrimTrimmed(Trim(s));
  }

  /** Every character of `Trim(s)` comes from `s`. */
  lemma TrimChars(s: string, c: char)
    requires c in Trim(s)
    ensures c in s
  {
    var r := Trim(s);
    var a := TrimInfix(s);
    var j :| 0 <= j < |r| && r[j] == c;
    assert s[a + j] == c;
  }

  /**
   * `s.split(',')`: the pieces between commas, in order. There is always at
   * least one piece: `"".split(',')` is `[""]`.
   */
  function Split(s: string): (pieces: seq<string>)
    ensures |pieces| >= 1
  {
    if s == [] then [""]
    else
      var rest := Split(s[1..]);
      if s[0] == ',' then [""] + rest else [[s[0]] + rest[0]] + rest[1..]
  }

  /** No piece of a split holds a comma. */
  lemma {:induction false} SplitCommaFree(s: string)
    ensures forall p :: p in Split(s) ==> ',' !in p
  {
    if s != [] {
      SplitCommaFree(s[1..]);
      var rest := Split(s[1..]);
      assert forall p :: p in rest[1..] ==> p in rest;
    }
  }

  /** `pieces.join(',')`. */
  function Join(pieces: seq<string>): string {
    if |pieces| == 0 then ""
    else if |pieces| == 1 then pieces[0]
    else pieces[0] + "," + Join(pieces[1..])
  }

  /** Joining the pieces back with commas gives the original string. */
  lemma {:induction false} JoinSplit(s: string)
    ensures Join(Split(s)) == s
  {
    if s != [] {
      JoinSplit(s[1..]);
      var rest := Split(s[1..]);
      if s[0] == ',' {
        assert s == [','] + s[1..];
      } else {
        var pieces := [[s[0]] + rest[0]] + rest[1..];
        if |rest| == 1 {
          assert s == [s[0]] + s[1..];
        } else {
          assert pieces[1..] == rest[1..];
          assert Join(rest) == rest[0] + "," + Join(rest[1..]);
          assert s == [s[0]] + s[1..];
        }
      }
    }
  }

  /** A string without commas is a single piece. */
  lemma {:induction false} SplitNoComma(s: string)
    requires ',' !in s
    ensures Split(s) == [s]
  {
    if s != [] {
      assert ',' !in s[1..] by {
        forall i | 0 <= i < |s[1..]| ensures s[1..][i] != ',' { assert s[1..][i] == s[i + 1]; }
      }
      SplitNoComma(s[1..]);
      assert s == [s[0]] + s[1..];
    }
  }

  /** One step of `Split`, stated for a string given as its first character and the rest. */
  lemma SplitCons(c: char, t: string)
    ensures Split([c] + t) ==
      if c == ',' then [""] + Split(t) else [[c] + Split(t)[0]] + Split(t)[1..]
  {
    assert ([c] + t)[0] == c && ([c] + t)[1..] == t;
  }

  /** Splitting at a comma splits the pieces: `(a + "," + b).split(',')` is `a.split(',')` then `b.split(',')`. */
  lemma {:induction false} SplitAtComma(a: string, b: string)
    ensures Split(a + "," + b) == Split(a) + Split(b)
  {
    if a == [] {
      assert a + "," + b == [','] + b;
      SplitCons(',', b);
    } else {
      SplitAtComma(a[1..], b);
      SplitAtCommaStep(a[0], a[1..], b);
      assert a == [a[0]] + a[1..];
    }
  }

  /** The inductive step of `SplitAtComma`: one more character in front of `a`. */
  lemma SplitAtCommaStep(c: char, a: string, b: string)
    requires Split(a + "," + b) == Split(a) + Split(b)
    ensures Split([c] + a + "," + b) == Split([c] + a) + Split(b)
  {
    assert [c] + a + "," + b == [c] + (a + "," + b);
    if c == ',' { StepAtComma(a, b); } else { StepAtOther(c, a, b); }
  }

  /** A leading comma opens an empty first piece on both sides. */
  lemma StepAtComma(a: string, b: string)
    requires Split(a + "," + b) == Split(a) + Split(b)
    ensures Split([','] + (a + "," + b)) == Split([','] + a) + Split(b)
  {
    var ra, rb := Split(a), Split(b);
    SplitCons(',', a + "," + b);
    SplitCons(',', a);
    assert [""] + (ra + rb) == ([""] + ra) + rb;
  }

  /** Any other leading character joins the first piece on both sides. */
  lemma StepAtOther(c: char, a: string, b: string)
    requires c != ','
    requires Split(a + "," + b) == Split(a) + Split(b)
    ensures Split([c] + (a + "," + b)) == Split([c] + a) + Split(b)
  {
    SplitCons(c, a + "," + b);
    SplitCons(c, a);
    ExtendFirst([c], Split(a), Split(b));
  }

  /** Prefixing the first piece commutes with appending more pieces. */
  lemma ExtendFirst<T>(x: seq<T>, front: seq<seq<T>>, back: seq<seq<T>>)
    requires |front| >= 1
    ensures [x + (front + back)[0]] + (front + back)[1..] == ([x + front[0]] + front[1..]) + back
  {
    assert (front + back)[1..] == front[1..] + back;
  }

  /** Splitting a join of comma-free pieces gives the pieces back. */
  lemma {:induction false} SplitJoin(pieces: seq<string>)
    requires |pieces| >= 1
    requires forall p :: p in pieces ==> ',' !in p
    ensures Split(Join(pieces)) == pieces
  {
    SplitNoComma(pieces[0]);
    if |pieces| > 1 {
      assert forall p :: p in pieces[1..] ==> p in pieces;
      SplitJoin(pieces[1..]);
      SplitAtComma(pieces[0], Join(pieces[1..]));
      assert pieces == [pieces[0]] + pieces[1..];
    }
  }
}
