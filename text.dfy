/**
 * The JavaScript string library calls the flashcard page relies on:
 * `String.prototype.trim`, `split` on one character and `Array.prototype.join`.
 */
module Text {

  /** The characters `trim` removes: ECMAScript WhiteSpace and LineTerminator code points. */
  predicate IsWs(c: char)
  {
    var n := c as int;
    n == 0x09 || n == 0x0A || n == 0x0B || n == 0x0C || n == 0x0D || n == 0x20 ||
    n == 0xA0 || n == 0x1680 || (0x2000 <= n <= 0x200A) ||
    n == 0x2028 || n == 0x2029 || n == 0x202F || n == 0x205F || n == 0x3000 || n == 0xFEFF
  }

  /** Drops the whitespace at the front of `s`. */
  function TrimStart(s: string): (r: string)
    ensures |r| <= |s|
    ensures r == [] || !IsWs(r[0])
  {
    if s != [] && IsWs(s[0]) then TrimStart(s[1..]) else s
  }

  /** `TrimStart` keeps a suffix, and what it drops is whitespace. */
  lemma {:induction false} TrimStartSuffix(s: string)
    ensures TrimStart(s) == s[|s| - |TrimStart(s)|..]
    ensures forall i :: 0 <= i < |s| - |TrimStart(s)| ==> IsWs(s[i])
  {
    if s != [] && IsWs(s[0]) {
      TrimStartSuffix(s[1..]);
      assert s[1..][|s| - 1 - |TrimStart(s)|..] == s[|s| - |TrimStart(s)|..];
      forall i | 0 < i < |s| - |TrimStart(s)|
        ensures IsWs(s[i])
      {
        assert s[i] == s[1..][i - 1];
      }
    }
  }

  /** Drops the whitespace at the back of `s`. */
  function TrimEnd(s: string): (r: string)
    ensures |r| <= |s|
    ensures r == [] || !IsWs(r[|r| - 1])
  {
    if s != [] && IsWs(s[|s| - 1]) then TrimEnd(s[..|s| - 1]) else s
  }

  /** `TrimEnd` keeps a prefix, and what it drops is whitespace. */
  lemma {:induction false} TrimEndPrefix(s: string)
    ensures TrimEnd(s) == s[..|TrimEnd(s)|]
    ensures forall i :: |TrimEnd(s)| <= i < |s| ==> IsWs(s[i])
  {
    if s != [] && IsWs(s[|s| - 1]) {
      TrimEndPrefix(s[..|s| - 1]);
      assert s[..|s| - 1][..|TrimEnd(s)|] == s[..|TrimEnd(s)|];
      forall i | |TrimEnd(s)| <= i < |s| - 1
        ensures IsWs(s[i])
      {
        assert s[i] == s[..|s| - 1][i];
      }
    }
  }

  /** `s.trim()`. */
  function Trim(s: string): string
  {
    TrimEnd(TrimStart(s))
  }

  /** The result of a trim neither starts nor ends with whitespace. */
  lemma TrimEnds(s: string)
    ensures Trim(s) == [] || (!IsWs(Trim(s)[0]) && !IsWs(Trim(s)[|Trim(s)| - 1]))
  {
    var t := TrimStart(s);
    var r := TrimEnd(t);
    if r != [] {
      TrimEndPrefix(t);
      assert r[0] == t[0];
    }
  }

  /** A string that neither starts nor ends with whitespace is its own trim. */
  lemma TrimUnchanged(s: string)
    requires s == [] || (!IsWs(s[0]) && !IsWs(s[|s| - 1]))
    ensures Trim(s) == s
  {
    assert TrimStart(s) == s;
  }

  /** One character more of a string being cut into pieces: a cut opens a new empty
      piece, any other character extends the last piece. */
  function Extend(pieces: seq<string>, c: char, cut: bool): (r: seq<string>)
    requires |pieces| >= 1
    ensures |r| == if cut then |pieces| + 1 else |pieces|
  {
    if cut then pieces + [[]] else pieces[..|pieces| - 1] + [pieces[|pieces| - 1] + [c]]
  }

  /** `s.split(sep)` for a one-character separator: the pieces between the separators,
      built by reading `s` from the front. */
  function Split(s: string, sep: char): (parts: seq<string>)
    ensures |parts| >= 1
  {
    if s == [] then [[]]
    else
      var init := s[..|s| - 1];
      var c := s[|s| - 1];
      Extend(Split(init, sep), c, c == sep)
  }

  /** `parts.join(sep)`. */
  function Join(parts: seq<string>, sep: char): string
  {
    if |parts| == 0 then []
    else if |parts| == 1 then parts[0]
    else Join(parts[..|parts| - 1], sep) + [sep] + parts[|parts| - 1]
  }

  /** Extending the pieces by a character extends their join by that character, as
      long as a cut happens only at a separator. */
  lemma JoinExtend(pieces: seq<string>, c: char, cut: bool, sep: char)
    requires |pieces| >= 1 && (cut ==> c == sep)
    ensures Join(Extend(pieces, c, cut), sep) == Join(pieces, sep) + [c]
  {
    var q := Extend(pieces, c, cut);
    if cut {
      assert q[..|q| - 1] == pieces;
    } else if |pieces| > 1 {
      assert q[..|q| - 1] == pieces[..|pieces| - 1];
    }
  }

  /** Extending commutes with putting earlier pieces in front. */
  lemma ExtendAfter(front: seq<string>, pieces: seq<string>, c: char, cut: bool)
    requires |pieces| >= 1
    ensures Extend(front + pieces, c, cut) == front + Extend(pieces, c, cut)
  {
    if !cut {
      assert (front + pieces)[..|front + pieces| - 1] == front + pieces[..|pieces| - 1];
    }
  }

  /** A join starts with the first character of its first piece. */
  lemma {:induction false} JoinFirst(parts: seq<string>, sep: char)
    requires |parts| >= 1 && parts[0] != []
    ensures Join(parts, sep) != [] && Join(parts, sep)[0] == parts[0][0]
  {
    if |parts| > 1 {
      var init := parts[..|parts| - 1];
      assert init[0] == parts[0];
      JoinFirst(init, sep);
    }
  }

  /** A join ends with the last character of its last piece. */
  lemma JoinLast(parts: seq<string>, sep: char)
    requires |parts| >= 1 && parts[|parts| - 1] != []
    ensures var j := Join(parts, sep);
      var last := parts[|parts| - 1];
      j != [] && j[|j| - 1] == last[|last| - 1]
  {
  }

  /** A join whose first piece starts and whose last piece ends with something
      other than whitespace is its own trim. */
  lemma JoinTrimmed(parts: seq<string>, sep: char)
    requires |parts| >= 1 && parts[0] != [] && parts[|parts| - 1] != []
    requires !IsWs(parts[0][0]) && !IsWs(parts[|parts| - 1][|parts[|parts| - 1]| - 1])
    ensures Trim(Join(parts, sep)) == Join(parts, sep)
  {
    JoinFirst(parts, sep);
    JoinLast(parts, sep);
    TrimUnchanged(Join(parts, sep));
  }

  /** Joining the pieces of a split restores the string. */
  lemma {:induction false} JoinSplit(s: string, sep: char)
    ensures Join(Split(s, sep), sep) == s
  {
    if s != [] {
      var init := s[..|s| - 1];
      var c := s[|s| - 1];
      JoinSplit(init, sep);
      JoinExtend(Split(init, sep), c, c == sep, sep);
      assert s == init + [c];
    }
  }

  /** Splitting a join of separator-free pieces gives the pieces back. */
  lemma {:induction false} SplitJoin(parts: seq<string>, sep: char)
    requires |parts| >= 1
    requires forall p :: p in parts ==> sep !in p
    ensures Split(Join(parts, sep), sep) == parts
  {
    var n := |parts|;
    if n == 1 {
      SplitNoSep([], [], parts[0], sep);
      assert [] + parts[0] == parts[0];
    } else {
      var init := parts[..n - 1];
      var last := parts[n - 1];
      var front := Join(init, sep);
      assert Split(front + [sep], sep) == init + [[]] by {
        assert forall p :: p in init ==> p in parts;
        SplitJoin(init, sep);
        SplitSnocSep(front, sep);
      }
      assert last in parts;
      SplitNoSep(init, front + [sep], last, sep);
      assert Join(parts, sep) == front + [sep] + last;
      assert init + [last] == parts;
    }
  }

  /** Appending the separator opens a new empty piece. */
  lemma SplitSnocSep(a: string, sep: char)
    ensures Split(a + [sep], sep) == Split(a, sep) + [[]]
  {
    assert (a + [sep])[..|a|] == a;
  }

  /** Once the pieces of `a` end in an empty one, a separator-free `p` fills that
      last piece. */
  lemma {:induction false} SplitNoSep(front: seq<string>, a: string, p: string, sep: char)
    requires Split(a, sep) == front + [[]]
    requires sep !in p
    ensures Split(a + p, sep) == front + [p]
  {
    if p != [] {
      var p' := p[..|p| - 1];
      var c := p[|p| - 1];
      assert c in p;
      assert forall ch :: ch in p' ==> ch in p;
      SplitNoSep(front, a, p', sep);
      assert (a + p)[..|a + p| - 1] == a + p';
      ExtendAfter(front, [p'], c, false);
      assert Extend([p'], c, false) == [p' + [c]];
      assert p' + [c] == p;
    } else {
      assert a + p == a;
    }
  }

}
