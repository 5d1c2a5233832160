/**
  The username field of the form: a comma-separated string is split on ',',
  every piece is stripped of surrounding whitespace, and pieces left empty are
  dropped. Order is kept and duplicates survive this stage.
*/
module Usernames {

  /** The characters Python's `str.isspace()` accepts, which `str.strip()` removes. */
  predicate IsSpace(c: char) {
    var n := c as int;
    || (0x09 <= n <= 0x0D)
    || (0x1C <= n <= 0x20)
    || n == 0x85 || n == 0xA0 || n == 0x1680
    || (0x2000 <= n <= 0x200A)
    || n == 0x2028 || n == 0x2029 || n == 0x202F || n == 0x205F || n == 0x3000
  }

  predicate AllSpace(s: string) {
    forall i :: 0 <= i < |s| ==> IsSpace(s[i])
  }

  /** Neither end of `s` is whitespace. */
  predicate IsStripped(s: string) {
    s == [] || (!IsSpace(s[0]) && !IsSpace(s[|s| - 1]))
  }

  // ---------------------------------------------------------------------------
  // str.strip()
  // ---------------------------------------------------------------------------

  /** The length of the longest all-whitespace prefix of `s`. */
  function LeadingSpaces(s: string): (n: nat)
    ensures n <= |s|
    ensures forall i :: 0 <= i < n ==> IsSpace(s[i])
    ensures n == |s| || !IsSpace(s[n])
    decreases |s|
  {
    if s == [] || !IsSpace(s[0]) then 0
    else
      var n := LeadingSpaces(s[1..]);
      assert forall i :: 1 <= i < 1 + n ==> s[i] == s[1..][i - 1];
      1 + n
  }

  /** The length of the longest all-whitespace suffix of `s`. */
  function TrailingSpaces(s: string): (n: nat)
    ensures n <= |s|
    ensures forall i :: |s| - n <= i < |s| ==> IsSpace(s[i])
    ensures n == |s| || !IsSpace(s[|s| - n - 1])
    decreases |s|
  {
    if s == [] || !IsSpace(s[|s| - 1]) then 0
    else
      var n := TrailingSpaces(s[..|s| - 1]);
      assert forall i :: |s| - 1 - n <= i < |s| - 1 ==> s[i] == s[..|s| - 1][i];
      1 + n
  }

  /**
    Python's `str.strip()` with no argument: the result neither starts nor ends
    with whitespace, and it is empty exactly when `s` is all whitespace.
  */
  function Strip(s: string): (r: string)
    ensures IsStripped(r)
    ensures r == [] <==> AllSpace(s)
  {
    var i := LeadingSpaces(s);
    var j := if i == |s| then i else |s| - TrailingSpaces(s);
    s[i..j]
  }

  /** What `Strip` removes is a whitespace prefix and a whitespace suffix, nothing else. */
  lemma StripInfix(s: string)
    ensures var r := Strip(s);
      exists i :: 0 <= i <= |s| - |r| && r == s[i..i + |r|] && AllSpace(s[..i]) && AllSpace(s[i + |r|..])
  {
    var i := LeadingSpaces(s);
    var r := Strip(s);
    assert r == s[i..i + |r|];
    assert AllSpace(s[..i]);
  }

  /** Stripping an already stripped string changes nothing, so stripping is idempotent. */
  lemma {:induction false} StripStripped(s: string)
    requires IsStripped(s)
    ensures Strip(s) == s
  {
    assert s != [] ==> LeadingSpaces(s) == 0 && TrailingSpaces(s) == 0;
  }

  lemma StripIdempotent(s: string)
    ensures Strip(Strip(s)) == Strip(s)
  {
    StripStripped(Strip(s));
  }

  // ---------------------------------------------------------------------------
  // str.split(",")
  // ---------------------------------------------------------------------------

  /**
    Python's `s.split(",")`: the maximal comma-free runs of `s`, in order. There
    is always at least one piece: the empty string splits into `[""]`.
  */
  function Split(s: string): (pieces: seq<string>)
    ensures |pieces| >= 1
    ensures forall p :: p in pieces ==> ',' !in p
    decreases |s|
  {
    if s == [] then [[]]
    else
      var rest := Split(s[1..]);
      assert rest[0] in rest;
      assert forall p :: p in rest[1..] ==> p in rest;
      ConsPiece(s[0], rest)
  }

  /** The pieces of `[c] + s`, given the pieces `rest` of `s`: a comma starts a new piece. */
  function ConsPiece(c: char, rest: seq<string>): seq<string>
    requires |rest| >= 1
  {
    if c == ',' then [[]] + rest else [[c] + rest[0]] + rest[1..]
  }

  /** Python's `",".join(pieces)`. */
  function Join(pieces: seq<string>): string
    decreases |pieces|
  {
    if pieces == [] then []
    else if |pieces| == 1 then pieces[0]
    else pieces[0] + [','] + Join(pieces[1..])
  }

  /** Joining the pieces with ',' gives back the text: splitting loses nothing. */
  lemma {:induction false} JoinSplit(s: string)
    ensures Join(Split(s)) == s
    decreases |s|
  {
    if s != [] {
      JoinSplit(s[1..]);
      JoinConsPiece(s[0], Split(s[1..]));
      assert s == [s[0]] + s[1..];
    }
  }

  /** Joining after `ConsPiece` puts the character in front of the joined rest. */
  lemma JoinConsPiece(c: char, rest: seq<string>)
    requires |rest| >= 1
    ensures Join(ConsPiece(c, rest)) == [c] + Join(rest)
  {
    if c != ',' && |rest| > 1 {
      assert ConsPiece(c, rest)[1..] == rest[1..];
    }
  }

  /** Comma-free pieces, joined and split again, come back unchanged. */
  lemma {:induction false} SplitJoin(pieces: seq<string>)
    requires |pieces| >= 1
    requires forall p :: p in pieces ==> ',' !in p
    ensures Split(Join(pieces)) == pieces
    decreases |pieces|
  {
    if |pieces| == 1 {
      SplitCommaFree(pieces[0]);
    } else {
      assert forall p :: p in pieces[1..] ==> p in pieces;
      SplitJoin(pieces[1..]);
      SplitConcat(pieces[0], Join(pieces[1..]));
      SplitCommaFree(pieces[0]);
      assert pieces == [pieces[0]] + pieces[1..];
    }
  }

  /** A comma-free string is a single piece. */
  lemma {:induction false} SplitCommaFree(s: string)
    requires ',' !in s
    ensures Split(s) == [s]
    decreases |s|
  {
    if s != [] {
      assert s[0] in s;
      assert forall c :: c in s[1..] ==> c in s;
      SplitCommaFree(s[1..]);
      assert s == [s[0]] + s[1..];
    }
  }

  /** How `Split` treats the first character. */
  lemma SplitCons(c: char, s: string)
    ensures Split([c] + s) == ConsPiece(c, Split(s))
  {
    assert ([c] + s)[0] == c;
    assert ([c] + s)[1..] == s;
  }

  lemma ConsPieceConcat(c: char, rest: seq<string>, more: seq<string>)
    requires |rest| >= 1
    ensures ConsPiece(c, rest + more) == ConsPiece(c, rest) + more
  {
    assert (rest + more)[0] == rest[0];
    assert (rest + more)[1..] == rest[1..] + more;
  }

  /** Splitting around one comma splits each side on its own, in order. */
  lemma {:induction false} SplitConcat(x: string, y: string)
    ensures Split(x + [','] + y) == Split(x) + Split(y)
    decreases |x|
  {
    if x == [] {
      SplitCons(',', y);
      assert x + [','] + y == [','] + y;
    } else {
      var tail := x[1..] + [','] + y;
      assert x + [','] + y == [x[0]] + tail;
      assert x == [x[0]] + x[1..];
      SplitCons(x[0], tail);
      SplitCons(x[0], x[1..]);
      SplitConcat(x[1..], y);
      ConsPieceConcat(x[0], Split(x[1..]), Split(y));
    }
  }

  // ---------------------------------------------------------------------------
  // [u.strip() for u in text.split(",") if u.strip()]
  // ---------------------------------------------------------------------------

  /** `f(u)` for every `u` of `s`, in order: the comprehension's map. */
  function MapAll(f: string -> string, s: seq<string>): (r: seq<string>)
    ensures |r| == |s|
    ensures forall i :: 0 <= i < |s| ==> r[i] == f(s[i])
  {
    seq(|s|, i requires 0 <= i < |s| => f(s[i]))
  }

  /** The comprehension's filter `if u.strip()`: the empty names are dropped, the rest kept in order. */
  function DropEmpty(names: seq<string>): (kept: seq<string>)
    ensures |kept| <= |names|
    ensures forall i :: 0 <= i < |kept| ==> kept[i] != []
    decreases |names|
  {
    if names == [] then []
    else (if names[0] != [] then [names[0]] else []) + DropEmpty(names[1..])
  }

  /**
    The usernames the form's text denotes: at most one per comma-separated
    field, none of them empty.
  */
  function Parse(text: string): (names: seq<string>)
    ensures |names| <= |Split(text)|
    ensures forall i :: 0 <= i < |names| ==> names[i] != []
  {
    DropEmpty(MapAll(Strip, Split(text)))
  }

  /** Dropping distributes over concatenation, so the kept names stay in input order. */
  lemma {:induction false} DropEmptyConcat(a: seq<string>, b: seq<string>)
    ensures DropEmpty(a + b) == DropEmpty(a) + DropEmpty(b)
    decreases |a|
  {
    if a == [] {
      assert a + b == b;
    } else {
      var head: seq<string> := if a[0] != [] then [a[0]] else [];
      assert (a + b)[0] == a[0];
      assert (a + b)[1..] == a[1..] + b;
      DropEmptyConcat(a[1..], b);
      assert DropEmpty(a + b) == head + DropEmpty(a[1..] + b);
    }
  }

  /** A name is kept exactly when it is a non-empty member. */
  lemma {:induction false} DropEmptyMembership(names: seq<string>, n: string)
    ensures n in DropEmpty(names) <==> n in names && n != []
    decreases |names|
  {
    if names != [] {
      DropEmptyMembership(names[1..], n);
      assert n in names <==> n == names[0] || n in names[1..];
    }
  }

  /** Nothing is kept exactly when every name is empty. */
  lemma {:induction false} DropEmptyNothing(names: seq<string>)
    ensures DropEmpty(names) == [] <==> forall n :: n in names ==> n == []
    decreases |names|
  {
    if names != [] {
      DropEmptyNothing(names[1..]);
      assert forall n :: n in names <==> n == names[0] || n in names[1..];
      if names[0] != [] {
        assert DropEmpty(names)[0] == names[0];
        assert names[0] in names;
      }
    }
  }

  lemma MapAllConcat(f: string -> string, a: seq<string>, b: seq<string>)
    ensures MapAll(f, a + b) == MapAll(f, a) + MapAll(f, b)
  {
    var l, r := MapAll(f, a + b), MapAll(f, a) + MapAll(f, b);
    forall i | 0 <= i < |l|
      ensures l[i] == r[i]
    {
      if i < |a| {
        assert (a + b)[i] == a[i];
      } else {
        assert (a + b)[i] == b[i - |a|];
      }
    }
  }

  lemma MapAllMembership(f: string -> string, pieces: seq<string>, n: string)
    ensures n in MapAll(f, pieces) <==> exists p :: p in pieces && f(p) == n
  {
    var stripped := MapAll(f, pieces);
    if n in stripped {
      var i :| 0 <= i < |stripped| && stripped[i] == n;
      assert pieces[i] in pieces;
    }
    if p :| p in pieces && f(p) == n {
      var i :| 0 <= i < |pieces| && pieces[i] == p;
      assert stripped[i] == n;
    }
  }

  /** Every piece of `s` is whitespace exactly when `s` has only commas and whitespace. */
  lemma {:induction false} SplitAllSpace(s: string)
    ensures (forall p :: p in Split(s) ==> AllSpace(p)) <==> (forall i :: 0 <= i < |s| ==> s[i] == ',' || IsSpace(s[i]))
    decreases |s|
  {
    if s != [] {
      SplitAllSpace(s[1..]);
      ConsPieceAllSpace(s[0], Split(s[1..]));
      assert forall i :: 1 <= i < |s| ==> s[i] == s[1..][i - 1];
    }
  }

  lemma ConsPieceAllSpace(c: char, rest: seq<string>)
    requires |rest| >= 1
    ensures (forall p :: p in ConsPiece(c, rest) ==> AllSpace(p)) <==>
      (c == ',' || IsSpace(c)) && (forall p :: p in rest ==> AllSpace(p))
  {
    assert forall p :: p in rest <==> p == rest[0] || p in rest[1..];
    if c != ',' {
      var head := [c] + rest[0];
      assert forall p :: p in ConsPiece(c, rest) <==> p == head || p in rest[1..];
      assert AllSpace(head) <==> IsSpace(c) && AllSpace(rest[0]) by {
        assert head[0] == c;
        assert forall i :: 1 <= i < |head| ==> head[i] == rest[0][i - 1];
        assert forall k :: 0 <= k < |rest[0]| ==> rest[0][k] == head[k + 1];
      }
    } else {
      assert forall p :: p in ConsPiece(c, rest) <==> p == [] || p in rest;
    }
  }

  // ---------------------------------------------------------------------------
  // What the parsed list promises
  // ---------------------------------------------------------------------------

  /** Every parsed name is non-empty, has no surrounding whitespace and holds no comma. */
  lemma ParseEntries(text: string, n: string)
    requires n in Parse(text)
    ensures n != [] && IsStripped(n) && ',' !in n
  {
    ParseMembership(text, n);
    var p :| p in Split(text) && Strip(p) == n;
    StripKeepsOut(p, ',');
  }

  /** Stripping introduces no character that was not there. */
  lemma StripKeepsOut(p: string, c: char)
    requires c !in p
    ensures c !in Strip(p)
  {
    var i := LeadingSpaces(p);
    var r := Strip(p);
    assert r == p[i..i + |r|];
  }

  /** A name is parsed exactly when some comma-separated field strips to it. */
  lemma ParseMembership(text: string, n: string)
    ensures n in Parse(text) <==> n != [] && exists p :: p in Split(text) && Strip(p) == n
  {
    DropEmptyMembership(MapAll(Strip, Split(text)), n);
    MapAllMembership(Strip, Split(text), n);
  }

  /** A field without a comma gives its stripped self, or nothing when it is blank. */
  lemma ParseField(s: string)
    requires ',' !in s
    ensures Parse(s) == if Strip(s) == [] then [] else [Strip(s)]
  {
    SplitCommaFree(s);
  }

  /**
    The names of `x + "," + y` are the names of `x` followed by those of `y`:
    input order is kept and duplicates are not removed.
  */
  lemma ParseConcat(x: string, y: string)
    ensures Parse(x + [','] + y) == Parse(x) + Parse(y)
  {
    SplitConcat(x, y);
    MapAllConcat(Strip, Split(x), Split(y));
    DropEmptyConcat(MapAll(Strip, Split(x)), MapAll(Strip, Split(y)));
  }

  /** The list is empty exactly when the text holds nothing but commas and whitespace. */
  lemma ParseEmpty(text: string)
    ensures Parse(text) == [] <==> forall i :: 0 <= i < |text| ==> text[i] == ',' || IsSpace(text[i])
  {
    var pieces := Split(text);
    DropEmptyNothing(MapAll(Strip, pieces));
    var stripped := MapAll(Strip, pieces);
    if forall n :: n in stripped ==> n == [] {
      forall p | p in pieces
        ensures AllSpace(p)
      {
        MapAllMembership(Strip, pieces, Strip(p));
      }
    }
    if forall p :: p in pieces ==> AllSpace(p) {
      forall n | n in stripped
        ensures n == []
      {
        MapAllMembership(Strip, pieces, n);
      }
    }
    SplitAllSpace(text);
  }
}
