/**
 * The string operations the backend leans on: JavaScript's String.prototype.trim,
 * toLowerCase, split(',') and Array.prototype.join(','), and the tag parsing
 * `tags.split(',').map(t => t.trim()).filter(Boolean)` shared by every post view.
 */
module Text {

  /** The characters String.prototype.trim removes: ECMAScript WhiteSpace and LineTerminator. */
  predicate IsSpace(c: char) {
    c == ' ' || c == '\t' || c == '\n' || c == '\r' || c == '\U{000B}' || c == '\U{000C}'
    || c == '\U{00A0}' || c == '\U{1680}' || ('\U{2000}' <= c <= '\U{200A}')
    || c == '\U{2028}' || c == '\U{2029}' || c == '\U{202F}' || c == '\U{205F}'
    || c == '\U{3000}' || c == '\U{FEFF}'
  }

  /** Drops leading white space. */
  function TrimStart(s: string): string {
    if s != [] && IsSpace(s[0]) then TrimStart(s[1..]) else s
  }

  /** Drops trailing white space. */
  function TrimEnd(s: string): string {
    if s != [] && IsSpace(s[|s| - 1]) then TrimEnd(s[..|s| - 1]) else s
  }

  /** What TrimStart keeps is a suffix of `s` not starting with white space; what it drops is white space. */
  lemma {:induction false} TrimStartSuffix(s: string)
    ensures var r := TrimStart(s);
      && |r| <= |s| && r == s[|s| - |r|..]
      && (r == [] || !IsSpace(r[0]))
      && forall i :: 0 <= i < |s| - |r| ==> IsSpace(s[i])
  {
    if s != [] && IsSpace(s[0]) {
      var t := s[1..];
      TrimStartSuffix(t);
      var r := TrimStart(t);
      assert TrimStart(s) == r;
      assert s[|s| - |r|..] == t[|t| - |r|..];
      forall i | 0 <= i < |s| - |r|
        ensures IsSpace(s[i])
      {
        if 0 < i {
          assert s[i] == t[i - 1];
        }
      }
    }
  }

  /** What TrimEnd keeps is a prefix of `s` not ending with white space; what it drops is white space. */
  lemma {:induction false} TrimEndPrefix(s: string)
    ensures var r := TrimEnd(s);
      && |r| <= |s| && r == s[..|r|]
      && (r == [] || !IsSpace(r[|r| - 1]))
      && forall i :: |r| <= i < |s| ==> IsSpace(s[i])
  {
    if s != [] && IsSpace(s[|s| - 1]) {
      var t := s[..|s| - 1];
      TrimEndPrefix(t);
      var r := TrimEnd(t);
      assert TrimEnd(s) == r;
      assert s[..|r|] == t[..|r|];
      forall i | |r| <= i < |s|
        ensures IsSpace(s[i])
      {
        if i < |s| - 1 {
          assert s[i] == t[i];
        }
      }
    }
  }

  /** String.prototype.trim: no white space at either end, nothing but characters of `s`. */
  function Trim(s: string): (r: string)
    ensures r == [] || (!IsSpace(r[0]) && !IsSpace(r[|r| - 1]))
    ensures forall c :: c in r ==> c in s
    ensures |r| <= |s|
  {
    var t := TrimStart(s);
    var r := TrimEnd(t);
    TrimStartSuffix(s);
    TrimEndPrefix(t);
    assert r != [] ==> r[0] == t[0];
    assert forall c :: c in r ==> c in t;
    r
  }

  /** The trim is a slice of `s`, and everything cut off on either side is white space. */
  lemma TrimCutsOnlySpace(s: string)
    ensures exists a, b ::
      (0 <= a <= b <= |s| && Trim(s) == s[a..b] &&
       forall i :: 0 <= i < |s| && (i < a || b <= i) ==> IsSpace(s[i]))
  {
    var t := TrimStart(s);
    var r := TrimEnd(t);
    TrimStartSuffix(s);
    TrimEndPrefix(t);
    var a := |s| - |t|;
    var b := a + |r|;
    assert r == s[a..b];
    assert forall i :: b <= i < |s| ==> s[i] == t[i - a];
  }

  /** A string with no white space at either end is its own trim. */
  predicate Trimmed(s: string) {
    s == [] || (!IsSpace(s[0]) && !IsSpace(s[|s| - 1]))
  }

  lemma TrimOfTrimmed(s: string)
    requires Trimmed(s)
    ensures Trim(s) == s
  {
    assert TrimStart(s) == s;
    assert TrimEnd(s) == s;
  }

  lemma TrimIdempotent(s: string)
    ensures Trim(Trim(s)) == Trim(s)
  {
    TrimOfTrimmed(Trim(s));
  }

  /** Trimming yields the empty string exactly when the input is all white space. */
  lemma TrimEmptyIff(s: string)
    ensures Trim(s) == [] <==> forall i :: 0 <= i < |s| ==> IsSpace(s[i])
  {
    var t := TrimStart(s);
    TrimStartSuffix(s);
    TrimEndPrefix(t);
    if t != [] {
      assert t[0] == s[|s| - |t|];
      assert !IsSpace(s[|s| - |t|]);
    }
  }

  /** ASCII case folding; every other character is kept as it is. */
  function LowerChar(c: char): char {
    if 'A' <= c <= 'Z' then (c as int + 32) as char else c
  }

  /** String.prototype.toLowerCase, restricted to the ASCII letters. */
  function Lower(s: string): (r: string)
    ensures |r| == |s|
    ensures forall i :: 0 <= i < |r| ==> !('A' <= r[i] <= 'Z')
    ensures forall i :: 0 <= i < |s| && !('A' <= s[i] <= 'Z') ==> r[i] == s[i]
    ensures forall i :: 0 <= i < |s| && 'A' <= s[i] <= 'Z' ==> r[i] as int == s[i] as int + 32
  {
    seq(|s|, i requires 0 <= i < |s| => LowerChar(s[i]))
  }

  lemma LowerIdempotent(s: string)
    ensures Lower(Lower(s)) == Lower(s)
  {
  }

  /** Case folding never creates or removes white space at the ends. */
  lemma LowerKeepsTrimmed(s: string)
    requires Trimmed(s)
    ensures Trimmed(Lower(s))
  {
    if s != [] {
      assert Lower(s)[0] == LowerChar(s[0]);
      assert Lower(s)[|s| - 1] == LowerChar(s[|s| - 1]);
    }
  }

  /** Case folding never turns white space into anything else, nor anything else into white space. */
  lemma LowerKeepsSpace(c: char)
    ensures IsSpace(LowerChar(c)) <==> IsSpace(c)
  {
  }

  /** Lowercasing a string with white space at an end leaves that white space in place. */
  lemma LowerKeepsUntrimmed(s: string)
    requires !Trimmed(s)
    ensures !Trimmed(Lower(s))
  {
    assert Lower(s)[0] == LowerChar(s[0]);
    assert Lower(s)[|s| - 1] == LowerChar(s[|s| - 1]);
    LowerKeepsSpace(s[0]);
    LowerKeepsSpace(s[|s| - 1]);
  }

  /** String.prototype.split with a one-character separator: there is always at least one piece. */
  function Split(s: string, sep: char): (parts: seq<string>)
    ensures |parts| >= 1
    ensures forall p :: p in parts ==> sep !in p
  {
    if s == [] then [[]]
    else
      var rest := Split(s[1..], sep);
      if s[0] == sep then [[]] + rest
      else [[s[0]] + rest[0]] + rest[1..]
  }

  /** Array.prototype.join: pieces separated by `sep`, the empty list giving "". */
  function Join(parts: seq<string>, sep: char): (s: string)
    ensures |parts| == 1 ==> s == parts[0]
    ensures (forall p :: p in parts ==> sep !in p) ==> |s| + 1 >= |parts|
  {
    if |parts| == 0 then []
    else if |parts| == 1 then parts[0]
    else parts[0] + [sep] + Join(parts[1..], sep)
  }

  /** A first character other than the separator extends the first piece. */
  lemma SplitCons(c: char, t: string, sep: char)
    requires c != sep
    ensures Split([c] + t, sep) == [[c] + Split(t, sep)[0]] + Split(t, sep)[1..]
  {
    assert ([c] + t)[1..] == t;
  }

  /** A piece with no separator in it only ever extends the first piece of what follows. */
  lemma {:induction false} SplitPrefix(a: string, rest: string, sep: char)
    requires sep !in a
    ensures Split(a + rest, sep) == [a + Split(rest, sep)[0]] + Split(rest, sep)[1..]
  {
    if a != [] {
      var S := Split(rest, sep);
      assert a + rest == [a[0]] + (a[1..] + rest);
      assert a[0] in a;
      assert forall c :: c in a[1..] ==> c in a;
      SplitCons(a[0], a[1..] + rest, sep);
      SplitPrefix(a[1..], rest, sep);
      assert [a[0]] + (a[1..] + S[0]) == a + S[0];
    } else {
      var r := Split(rest, sep);
      assert a + rest == rest;
      assert a + r[0] == r[0];
      assert [r[0]] + r[1..] == r;
    }
  }

  /** Splitting undoes joining when no piece contains the separator. */
  lemma {:induction false} SplitJoin(parts: seq<string>, sep: char)
    requires |parts| >= 1
    requires forall p :: p in parts ==> sep !in p
    ensures Split(Join(parts, sep), sep) == parts
  {
    if |parts| == 1 {
      SplitPrefix(parts[0], [], sep);
      assert parts[0] + [] == parts[0];
    } else {
      var tail := parts[1..];
      SplitJoin(tail, sep);
      var rest := [sep] + Join(tail, sep);
      assert parts[0] + [sep] + Join(tail, sep) == parts[0] + rest;
      SplitPrefix(parts[0], rest, sep);
      assert rest[1..] == Join(tail, sep);
      assert Split(rest, sep) == [[]] + tail;
      assert parts[0] + [] == parts[0];
      assert parts == [parts[0]] + tail;
    }
  }

  /** `.map(t => t.trim())` */
  function TrimEach(parts: seq<string>): (r: seq<string>)
    ensures |r| == |parts|
    ensures forall i :: 0 <= i < |r| ==> r[i] == Trim(parts[i])
  {
    if parts == [] then [] else [Trim(parts[0])] + TrimEach(parts[1..])
  }

  /** `.filter(Boolean)` on strings: the empty ones go, the order of the rest is kept. */
  function DropEmpty(parts: seq<string>): (r: seq<string>)
    ensures |r| <= |parts|
    ensures forall p :: p in r ==> p != [] && p in parts
    ensures forall p :: p in parts && p != [] ==> p in r
  {
    if parts == [] then []
    else if parts[0] == [] then DropEmpty(parts[1..])
    else [parts[0]] + DropEmpty(parts[1..])
  }

  /** `.filter(Boolean)` keeps every non-empty piece as often as it occurs, and no empty one. */
  lemma {:induction false} DropEmptyCounts(parts: seq<string>)
    ensures multiset(DropEmpty(parts)) == multiset(parts)[[] := 0]
  {
    if parts != [] {
      DropEmptyCounts(parts[1..]);
      assert parts == [parts[0]] + parts[1..];
    }
  }

  /** `.filter(Boolean)` keeps the order: filtering a concatenation filters each part. */
  lemma {:induction false} DropEmptyAppend(a: seq<string>, b: seq<string>)
    ensures DropEmpty(a + b) == DropEmpty(a) + DropEmpty(b)
  {
    if a != [] {
      assert (a + b)[1..] == a[1..] + b;
      DropEmptyAppend(a[1..], b);
    } else {
      assert a + b == b;
    }
  }

  /** A tag that survives storage unchanged: non-empty, trimmed, free of commas. */
  predicate CleanTag(t: string) {
    t != [] && Trimmed(t) && ',' !in t
  }

  /**
   * The tag list of a stored post: an empty (or absent) column gives no tags; otherwise
   * the comma-separated pieces, each trimmed, the empty ones dropped.
   */
  function ParseTags(stored: string): (tags: seq<string>)
    ensures forall t :: t in tags ==> CleanTag(t)
    ensures stored == [] ==> tags == []
    ensures stored != [] ==>
      forall t :: t in tags <==> t != [] && exists p :: p in Split(stored, ',') && Trim(p) == t
  {
    if stored == [] then []
    else
      var pieces := Split(stored, ',');
      var r := DropEmpty(TrimEach(pieces));
      TagsFromPieces(pieces, r);
      PiecesGiveTags(pieces, r);
      r
  }

  /** Every tag kept from comma-free pieces is the trim of one of them, and a clean tag. */
  lemma TagsFromPieces(pieces: seq<string>, r: seq<string>)
    requires forall p :: p in pieces ==> ',' !in p
    requires r == DropEmpty(TrimEach(pieces))
    ensures forall t :: t in r ==> CleanTag(t) && exists p :: p in pieces && Trim(p) == t
  {
    forall t | t in r
      ensures CleanTag(t) && exists p :: p in pieces && Trim(p) == t
    {
      var i :| 0 <= i < |pieces| && TrimEach(pieces)[i] == t;
      assert pieces[i] in pieces;
      TrimIdempotent(pieces[i]);
    }
  }

  /** Every non-empty trim of a piece is kept. */
  lemma PiecesGiveTags(pieces: seq<string>, r: seq<string>)
    requires r == DropEmpty(TrimEach(pieces))
    ensures forall t :: t != [] && (exists p :: p in pieces && Trim(p) == t) ==> t in r
  {
    forall t | t != [] && exists p :: p in pieces && Trim(p) == t
      ensures t in r
    {
      var p :| p in pieces && Trim(p) == t;
      var i :| 0 <= i < |pieces| && pieces[i] == p;
      assert TrimEach(pieces)[i] == t;
    }
  }

  lemma {:induction false} TrimEachClean(parts: seq<string>)
    requires forall p :: p in parts ==> CleanTag(p)
    ensures TrimEach(parts) == parts
  {
    if parts != [] {
      assert parts[0] in parts;
      TrimOfTrimmed(parts[0]);
      TrimEachClean(parts[1..]);
    }
  }

  lemma {:induction false} DropEmptyClean(parts: seq<string>)
    requires forall p :: p in parts ==> p != []
    ensures DropEmpty(parts) == parts
  {
    if parts != [] {
      assert parts[0] in parts;
      assert forall p :: p in parts[1..] ==> p in parts;
      DropEmptyClean(parts[1..]);
    }
  }

  /** Tags joined with commas for storage come back as the same list when each is a clean tag. */
  lemma TagsRoundTrip(tags: seq<string>)
    requires forall t :: t in tags ==> CleanTag(t)
    ensures ParseTags(Join(tags, ',')) == tags
  {
    if tags != [] {
      assert tags[0] in tags;
      var stored := Join(tags, ',');
      assert stored != [] by {
        if |tags| > 1 { assert stored == tags[0] + [','] + Join(tags[1..], ','); }
      }
      SplitJoin(tags, ',');
      TrimEachClean(tags);
      DropEmptyClean(tags);
    }
  }
}
