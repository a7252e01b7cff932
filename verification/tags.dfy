/**
 * The comma-separated tag list of the `create` command:
 * `[t.strip() for t in tags.split(",")] if tags else []`.
 */
module Tags {

  /** Python's `str.isspace()` for one character. */
  predicate IsSpace(c: char) {
    || c == ' '
    || '\t' <= c <= '\r'
    || '\U{1C}' <= c <= '\U{1F}'
    || c == '\U{85}' || c == '\U{A0}' || c == '\U{1680}'
    || '\U{2000}' <= c <= '\U{200A}'
    || c == '\U{2028}' || c == '\U{2029}' || c == '\U{202F}' || c == '\U{205F}' || c == '\U{3000}'
  }

  predicate AllSpace(s: string) {
    forall i :: 0 <= i < |s| ==> IsSpace(s[i])
  }

  /** Neither the first nor the last character is whitespace. */
  predicate Trimmed(s: string) {
    s == [] || (!IsSpace(s[0]) && !IsSpace(s[|s| - 1]))
  }

  /** The length of the whitespace run at the front. */
  function LeadingSpace(s: string): (i: nat)
    ensures i <= |s| && AllSpace(s[..i])
    ensures i < |s| ==> !IsSpace(s[i])
  {
    if s == [] || !IsSpace(s[0]) then 0
    else
      var k := LeadingSpace(s[1..]);
      assert s[..k + 1] == [s[0]] + s[1..][..k];
      k + 1
  }

  /** Where the whitespace run at the back begins. */
  function TrailingSpace(s: string): (j: nat)
    ensures j <= |s| && AllSpace(s[j..])
    ensures j > 0 ==> !IsSpace(s[j - 1])
  {
    if s == [] || !IsSpace(s[|s| - 1]) then |s|
    else
      var k := TrailingSpace(s[..|s| - 1]);
      assert s[k..] == s[..|s| - 1][k..] + [s[|s| - 1]];
      k
  }

  /**
   * The bounds `str.strip()` keeps: everything before `lo` and from `hi` on is
   * whitespace, and what is kept neither starts nor ends with whitespace;
   * when nothing is kept, both bounds sit at the end of the text. These
   * conditions determine the bounds.
   */
  function StripBounds(s: string): (b: (nat, nat))
    ensures b.0 <= b.1 <= |s|
    ensures b.0 == b.1 ==> b.0 == |s|
    ensures AllSpace(s[..b.0]) && AllSpace(s[b.1..])
    ensures b.0 < b.1 ==> !IsSpace(s[b.0]) && !IsSpace(s[b.1 - 1])
  {
    var lo := LeadingSpace(s);
    if lo == |s| then (lo, lo)
    else
      var hi := TrailingSpace(s);
      (lo, hi)
  }

  /** `str.strip()`. */
  function Strip(s: string): (r: string)
    ensures Trimmed(r)
    ensures |r| <= |s|
    ensures forall c :: c in r ==> c in s
  {
    s[StripBounds(s).0..StripBounds(s).1]
  }

  /** Stripping twice is stripping once. */
  lemma StripIdempotent(s: string)
    ensures Strip(Strip(s)) == Strip(s)
  {
    var r := Strip(s);
    if r != [] {
      assert LeadingSpace(r) == 0;
      assert TrailingSpace(r) == |r|;
    }
  }

  /** `s.split(sep)` with an explicit separator: always at least one piece. */
  function Split(s: string, sep: char): (r: seq<string>)
    ensures |r| >= 1
  {
    if s == [] then [[]]
    else
      var rest := Split(s[1..], sep);
      if s[0] == sep then [[]] + rest else [[s[0]] + rest[0]] + rest[1..]
  }

  function Count(s: string, c: char): nat {
    if s == [] then 0 else (if s[0] == c then 1 else 0) + Count(s[1..], c)
  }

  /** `sep.join(parts)`. */
  function Join(parts: seq<string>, sep: char): string {
    if parts == [] then []
    else if |parts| == 1 then parts[0]
    else parts[0] + [sep] + Join(parts[1..], sep)
  }

  /** Splitting yields one more piece than there are separators. */
  lemma {:induction false} SplitCount(s: string, sep: char)
    ensures |Split(s, sep)| == Count(s, sep) + 1
  {
    if s != [] {
      SplitCount(s[1..], sep);
    }
  }

  /** No piece contains the separator. */
  lemma {:induction false} SplitPiecesFree(s: string, sep: char)
    ensures forall i :: 0 <= i < |Split(s, sep)| ==> sep !in Split(s, sep)[i]
  {
    if s != [] {
      SplitPiecesFree(s[1..], sep);
      var rest := Split(s[1..], sep);
      if s[0] != sep {
        assert sep !in [s[0]] + rest[0];
      }
    }
  }

  /** Joining after an empty first piece starts with the separator. */
  lemma JoinEmptyFirst(rest: seq<string>, sep: char)
    requires rest != []
    ensures Join([[]] + rest, sep) == [sep] + Join(rest, sep)
  {
    assert ([[]] + rest)[1..] == rest;
  }

  /** Joining after a character is put at the front of the first piece starts with that character. */
  lemma JoinExtendFirst(x: char, rest: seq<string>, sep: char)
    requires rest != []
    ensures Join([[x] + rest[0]] + rest[1..], sep) == [x] + Join(rest, sep)
  {
    var parts := [[x] + rest[0]] + rest[1..];
    if |rest| > 1 {
      assert parts[1..] == rest[1..];
      var tail := Join(rest[1..], sep);
      assert Join(parts, sep) == [x] + rest[0] + [sep] + tail;
      assert Join(rest, sep) == rest[0] + [sep] + tail;
    }
  }

  /** Joining the pieces with the separator gives back the original string. */
  lemma {:induction false} JoinSplit(s: string, sep: char)
    ensures Join(Split(s, sep), sep) == s
  {
    if s != [] {
      JoinSplit(s[1..], sep);
      var rest := Split(s[1..], sep);
      if s[0] == sep {
        JoinEmptyFirst(rest, sep);
      } else {
        JoinExtendFirst(s[0], rest, sep);
      }
      assert s == [s[0]] + s[1..];
    }
  }

  /** Appending the separator opens a new, empty piece. */
  lemma {:induction false} SplitSnocSep(s: string, sep: char)
    ensures Split(s + [sep], sep) == Split(s, sep) + [[]]
  {
    if s == [] {
      assert [sep][1..] == [];
    } else {
      var t := s + [sep];
      assert t[0] == s[0] && t[1..] == s[1..] + [sep];
      SplitSnocSep(s[1..], sep);
      var rest := Split(s[1..], sep);
      if s[0] != sep {
        assert (rest + [[]])[0] == rest[0];
        assert (rest + [[]])[1..] == rest[1..] + [[]];
      }
    }
  }

  /** The pieces with one character appended to the last. */
  function ExtendLast(p: seq<string>, c: char): (r: seq<string>)
    requires p != []
    ensures |r| == |p| && r[|r| - 1] == p[|p| - 1] + [c]
  {
    p[..|p| - 1] + [p[|p| - 1] + [c]]
  }

  /** Extending the last piece commutes with putting an empty piece in front. */
  lemma ExtendLastEmptyFirst(p: seq<string>, c: char)
    requires p != []
    ensures [[]] + ExtendLast(p, c) == ExtendLast([[]] + p, c)
  {
    var q := [[]] + p;
    assert q[..|q| - 1] == [[]] + p[..|p| - 1];
  }

  /** Extending the last piece commutes with extending the first one. */
  lemma ExtendLastExtendFirst(x: char, p: seq<string>, c: char)
    requires p != []
    ensures var q := ExtendLast(p, c);
            [[x] + q[0]] + q[1..] == ExtendLast([[x] + p[0]] + p[1..], c)
  {
    var q := ExtendLast(p, c);
    var pp := [[x] + p[0]] + p[1..];
    if |p| == 1 {
      assert q == [p[0] + [c]];
      assert pp == [[x] + p[0]];
      assert [x] + (p[0] + [c]) == [x] + p[0] + [c];
    } else {
      assert q[0] == p[0];
      assert q[1..] == p[1..|p| - 1] + [p[|p| - 1] + [c]];
      assert pp[..|pp| - 1] == [[x] + p[0]] + p[1..|p| - 1];
    }
  }

  /** Appending any other character extends the last piece. */
  lemma {:induction false} SplitSnocOther(s: string, c: char, sep: char)
    requires c != sep
    ensures Split(s + [c], sep) == ExtendLast(Split(s, sep), c)
  {
    if s == [] {
      assert [c][1..] == [];
      assert [c] + [] == [] + [c];
    } else {
      var t := s + [c];
      assert t[0] == s[0] && t[1..] == s[1..] + [c];
      SplitSnocOther(s[1..], c, sep);
      var rest := Split(s[1..], sep);
      if s[0] == sep {
        ExtendLastEmptyFirst(rest, c);
      } else {
        ExtendLastExtendFirst(s[0], rest, c);
      }
    }
  }

  /** Appending one character either opens a new piece or extends the last one. */
  lemma SplitSnoc(s: string, c: char, sep: char)
    ensures var p := Split(s, sep);
            Split(s + [c], sep)
              == if c == sep then p + [[]] else p[..|p| - 1] + [p[|p| - 1] + [c]]
  {
    if c == sep {
      SplitSnocSep(s, sep);
    } else {
      SplitSnocOther(s, c, sep);
    }
  }

  /** `[t.strip() for t in pieces]`. */
  function StripAll(pieces: seq<string>): (r: seq<string>)
    ensures |r| == |pieces|
  {
    seq(|pieces|, i requires 0 <= i < |pieces| => Strip(pieces[i]))
  }

  lemma StripAllSnoc(pieces: seq<string>, x: string)
    ensures StripAll(pieces + [x]) == StripAll(pieces) + [Strip(x)]
  {
  }

  /** One step of a left-to-right scan: the pieces of a prefix, extended by one character. */
  lemma SplitStep(s: string, i: nat, start: nat, pieces: seq<string>, sep: char)
    requires start <= i < |s|
    requires Split(s[..i], sep) == pieces + [s[start..i]]
    ensures s[i] == sep ==> Split(s[..i + 1], sep) == pieces + [s[start..i]] + [s[i + 1..i + 1]]
    ensures s[i] != sep ==> Split(s[..i + 1], sep) == pieces + [s[start..i + 1]]
  {
    assert s[..i + 1] == s[..i] + [s[i]];
    SplitSnoc(s[..i], s[i], sep);
    var p := pieces + [s[start..i]];
    if s[i] == sep {
      assert s[i + 1..i + 1] == [];
    } else {
      assert p[..|p| - 1] == pieces;
      assert s[start..i + 1] == s[start..i] + [s[i]];
    }
  }

  /** The tag list the `create` command builds from its `--tags` argument. */
  method ParseTags(arg: string) returns (tags: seq<string>)
    ensures arg == [] ==> tags == []
    ensures arg != [] ==> tags == StripAll(Split(arg, ','))
    ensures arg != [] ==> |tags| == Count(arg, ',') + 1
    ensures forall i :: 0 <= i < |tags| ==> Trimmed(tags[i]) && ',' !in tags[i]
  {
    if arg == [] {
      return [];
    }
    tags := [];
    ghost var pieces: seq<string> := [];
    var start := 0;
    var i := 0;
    while i < |arg|
      invariant 0 <= start <= i <= |arg|
      invariant Split(arg[..i], ',') == pieces + [arg[start..i]]
      invariant tags == StripAll(pieces)
    {
      SplitStep(arg, i, start, pieces, ',');
      if arg[i] == ',' {
        StripAllSnoc(pieces, arg[start..i]);
        tags := tags + [Strip(arg[start..i])];
        pieces := pieces + [arg[start..i]];
        start := i + 1;
      }
      i := i + 1;
    }
    StripAllSnoc(pieces, arg[start..]);
    tags := tags + [Strip(arg[start..])];
    pieces := pieces + [arg[start..]];
    assert arg[..|arg|] == arg;
    SplitCount(arg, ',');
    SplitPiecesFree(arg, ',');
  }
}
