/** The pieces of the JavaScript runtime's string handling that the image
    editor's codec relies on: the regular-expression class \s, the call
    `data.split(/\s+/).filter(line => line.length > 0)` that turns the
    input into tokens, and `Array.prototype.join`. */
module JsText {

  /** The characters matched by \s: ECMAScript's WhiteSpace and
      LineTerminator code points. */
  predicate IsWhitespace(c: char) {
    c == '\t' || c == '\n' || c == '\U{000B}' || c == '\U{000C}' || c == '\r' || c == ' '
    || c == '\U{00A0}' || c == '\U{1680}' || ('\U{2000}' <= c <= '\U{200A}')
    || c == '\U{2028}' || c == '\U{2029}' || c == '\U{202F}' || c == '\U{205F}'
    || c == '\U{3000}' || c == '\U{FEFF}'
  }

  /** Every character of s is whitespace (the empty string included). */
  predicate Blank(s: string) {
    forall i :: 0 <= i < |s| ==> IsWhitespace(s[i])
  }

  /** No character of s is whitespace. */
  predicate Solid(s: string) {
    forall i :: 0 <= i < |s| ==> !IsWhitespace(s[i])
  }

  /** A token: a non-empty run of non-whitespace characters. */
  predicate IsToken(t: string) {
    t != [] && Solid(t)
  }

  /** s without its leading run of whitespace. */
  function DropWhitespace(s: string): (r: string)
    ensures |r| <= |s|
    ensures r == [] || !IsWhitespace(r[0])
  {
    if s != [] && IsWhitespace(s[0]) then DropWhitespace(s[1..]) else s
  }

  /** What is left after the leading whitespace is a suffix of s. */
  lemma {:induction false} DropWhitespaceIsSuffix(s: string)
    ensures DropWhitespace(s) == s[|s| - |DropWhitespace(s)|..]
  {
    if s != [] && IsWhitespace(s[0]) {
      DropWhitespaceIsSuffix(s[1..]);
    }
  }

  /** The length of the leading run of non-whitespace characters of s. */
  function WordLength(s: string): (n: nat)
    ensures n <= |s|
    ensures n < |s| ==> IsWhitespace(s[n])
  {
    if s != [] && !IsWhitespace(s[0]) then 1 + WordLength(s[1..]) else 0
  }

  /** `s.split(/\s+/)`: the pieces between maximal runs of whitespace, in
      order; a leading or trailing run gives an empty first or last piece,
      and the empty string gives one empty piece. */
  function Split(s: string): (pieces: seq<string>)
    ensures |pieces| >= 1
    ensures forall p :: p in pieces ==> Solid(p)
    decreases |s|
  {
    var n := WordLength(s);
    WordIsSolid(s);
    if n == |s| then assert s[..n] == s; [s]
    else
      assert IsWhitespace(s[n..][0]);
      [s[..n]] + Split(DropWhitespace(s[n..]))
  }

  /** The whitespace run at the start of s. */
  function LeadingBlank(s: string): (run: string)
    ensures Blank(run) && s == run + DropWhitespace(s)
  {
    if s != [] && IsWhitespace(s[0]) then [s[0]] + LeadingBlank(s[1..]) else []
  }

  /** The runs of whitespace `s.split(/\s+/)` splits at, in order: the
      separators between consecutive pieces of Split(s). */
  function SplitGaps(s: string): (gaps: seq<string>)
    ensures |gaps| == |Split(s)| - 1
    ensures forall g :: g in gaps ==> g != [] && Blank(g)
    decreases |s|
  {
    var n := WordLength(s);
    if n == |s| then []
    else
      assert IsWhitespace(s[n..][0]);
      [LeadingBlank(s[n..])] + SplitGaps(DropWhitespace(s[n..]))
  }

  /** pieces[0] + gaps[0] + pieces[1] + ... + gaps[n-1] + pieces[n]. */
  function Interleave(pieces: seq<string>, gaps: seq<string>): string
    requires |gaps| + 1 == |pieces|
    decreases |gaps|
  {
    if gaps == [] then pieces[0] else pieces[0] + gaps[0] + Interleave(pieces[1..], gaps[1..])
  }

  /** One step of split: the first word, then the split of what follows
      the whitespace run after it. */
  lemma SplitStep(s: string)
    requires WordLength(s) < |s|
    ensures var n := WordLength(s);
      var u := DropWhitespace(s[n..]);
      |u| < |s|
      && Split(s) == [s[..n]] + Split(u)
      && SplitGaps(s) == [LeadingBlank(s[n..])] + SplitGaps(u)
  {
    assert IsWhitespace(s[WordLength(s)..][0]);
  }

  /** split loses nothing: the text is its pieces with the whitespace runs
      between them, and every run is a non-empty stretch of whitespace. */
  lemma {:induction false} SplitInterleaves(s: string)
    ensures Interleave(Split(s), SplitGaps(s)) == s
    ensures s != [] && !IsWhitespace(s[0]) ==> Split(s)[0] != []
    ensures forall i :: 0 < i < |Split(s)| - 1 ==> Split(s)[i] != []
    decreases |s|
  {
    var n := WordLength(s);
    if n == |s| {
      assert s[..n] == s;
    } else {
      var v := s[n..];
      var u := DropWhitespace(v);
      SplitStep(s);
      SplitInterleaves(u);
      var pieces, gaps := Split(s), SplitGaps(s);
      assert pieces[1..] == Split(u) && gaps[1..] == SplitGaps(u);
      assert Interleave(pieces, gaps) == s[..n] + LeadingBlank(v) + u;
      AppendAssociative(s[..n], LeadingBlank(v), u);
      assert s == s[..n] + v;
    }
  }

  /** `pieces.filter(line => line.length > 0)`. */
  function NonEmpty(pieces: seq<string>): (kept: seq<string>)
    ensures forall p :: p in kept ==> p != [] && p in pieces
  {
    if pieces == [] then []
    else (if pieces[0] == [] then [] else [pieces[0]]) + NonEmpty(pieces[1..])
  }

  /** The filter works piece by piece: filtering a concatenation filters
      each part. */
  lemma {:induction false} NonEmptyAppend(a: seq<string>, b: seq<string>)
    ensures NonEmpty(a + b) == NonEmpty(a) + NonEmpty(b)
  {
    if a == [] {
      assert a + b == b;
    } else {
      assert (a + b)[1..] == a[1..] + b;
      NonEmptyAppend(a[1..], b);
    }
  }

  /** A single piece is kept exactly when it is non-empty. */
  lemma NonEmptySingle(p: string)
    ensures NonEmpty([p]) == if p == [] then [] else [p]
  {
    assert [p][1..] == [];
  }

  /** The decoder's tokenizer: `data.split(/\s+/).filter(line => line.length > 0)`. */
  function Tokenize(data: string): (tokens: seq<string>)
    ensures forall t :: t in tokens ==> IsToken(t)
  {
    NonEmpty(Split(data))
  }

  /** `parts.join(sep)`. */
  function Join(parts: seq<string>, sep: string): (joined: string)
    ensures parts == [] ==> joined == []
    ensures parts != [] ==> |parts[0]| <= |joined| && joined[..|parts[0]|] == parts[0]
  {
    if |parts| == 0 then ""
    else if |parts| == 1 then parts[0]
    else parts[0] + sep + Join(parts[1..], sep)
  }

  /** The tokens of each part, one after the other. */
  function TokenizeAll(parts: seq<string>): seq<string> {
    if parts == [] then [] else Tokenize(parts[0]) + TokenizeAll(parts[1..])
  }

  /** The tokens ts laid out with arbitrary whitespace:
      seps[0] + ts[0] + seps[1] + ts[1] + ... + ts[n-1] + seps[n]. */
  function Layout(ts: seq<string>, seps: seq<string>): string
    requires |seps| == |ts| + 1
  {
    if ts == [] then seps[0] else seps[0] + ts[0] + Layout(ts[1..], seps[1..])
  }

  /** seps is a legal set of separators for |ts| tokens: all whitespace, and
      non-empty between two tokens. */
  predicate Separators(ts: seq<string>, seps: seq<string>) {
    |seps| == |ts| + 1
    && (forall i :: 0 <= i < |seps| ==> Blank(seps[i]))
    && (forall i :: 0 < i < |ts| ==> seps[i] != [])
  }

  /** The first word holds no whitespace. */
  lemma {:induction false} WordIsSolid(s: string)
    ensures Solid(s[..WordLength(s)])
  {
    if s != [] && !IsWhitespace(s[0]) {
      WordIsSolid(s[1..]);
      assert s[..WordLength(s)] == [s[0]] + s[1..][..WordLength(s[1..])];
    }
  }

  /** Text without whitespace is one word. */
  lemma {:induction false} SolidIsWord(s: string)
    requires Solid(s)
    ensures WordLength(s) == |s|
  {
    if s != [] {
      SolidIsWord(s[1..]);
    }
  }

  /** Blank text is skipped entirely. */
  lemma {:induction false} DropBlank(s: string)
    requires Blank(s)
    ensures DropWhitespace(s) == []
  {
    if s != [] {
      DropBlank(s[1..]);
    }
  }

  /** The empty string holds no token. */
  lemma TokenizeEmpty()
    ensures Tokenize([]) == []
  {
    assert Split([]) == [[]];
  }

  /** Leading whitespace yields no token: splitting and filtering skips it. */
  lemma TokenizeSkip(s: string)
    ensures Tokenize(s) == Tokenize(DropWhitespace(s))
  {
    var n := WordLength(s);
    if n < |s| && n == 0 {
      var u := DropWhitespace(s);
      assert s[n..] == s;
      assert Split(s) == [[]] + Split(u);
      assert NonEmpty([[]] + Split(u)) == NonEmpty(Split(u)) by {
        assert ([[]] + Split(u))[1..] == Split(u);
      }
      assert DropWhitespace(u) == u;
    }
  }

  /** Text that starts with a non-whitespace character yields its first word,
      then the tokens of what follows the word. */
  lemma TokenizeWord(s: string)
    requires s != [] && !IsWhitespace(s[0])
    ensures Tokenize(s) == [s[..WordLength(s)]] + Tokenize(s[WordLength(s)..])
  {
    var n := WordLength(s);
    if n == |s| {
      assert Split(s) == [s];
      assert NonEmpty([s]) == [s] by { assert [s][1..] == []; }
      assert s[..n] == s && s[n..] == [];
      TokenizeEmpty();
    } else {
      var v := s[n..];
      var u := DropWhitespace(v);
      assert Split(s) == [s[..n]] + Split(u);
      assert NonEmpty([s[..n]] + Split(u)) == [s[..n]] + NonEmpty(Split(u)) by {
        assert ([s[..n]] + Split(u))[1..] == Split(u);
      }
      TokenizeSkip(v);
    }
  }

  lemma DropWhitespaceAppend(a: string, b: string)
    ensures DropWhitespace(a + b) ==
      if DropWhitespace(a) == [] then DropWhitespace(b) else DropWhitespace(a) + b
  {
    if a == [] {
      assert a + b == b;
    } else {
      assert (a + b)[0] == a[0];
      assert (a + b)[1..] == a[1..] + b;
      if IsWhitespace(a[0]) {
        DropWhitespaceAppend(a[1..], b);
      }
    }
  }

  lemma WordLengthAppend(a: string, b: string)
    ensures WordLength(a + b) ==
      if WordLength(a) < |a| then WordLength(a) else |a| + WordLength(b)
  {
    if a == [] {
      assert a + b == b;
    } else {
      assert (a + b)[0] == a[0];
      assert (a + b)[1..] == a[1..] + b;
      if !IsWhitespace(a[0]) {
        WordLengthAppend(a[1..], b);
      }
    }
  }

  /** Tokenization commutes with concatenation at a whitespace boundary. */
  lemma {:induction false} TokenizeConcat(a: string, b: string)
    requires a == [] || b == [] || IsWhitespace(a[|a| - 1]) || IsWhitespace(b[0])
    ensures Tokenize(a + b) == Tokenize(a) + Tokenize(b)
    decreases |a|, 1
  {
    var t := DropWhitespace(a);
    DropWhitespaceAppend(a, b);
    TokenizeSkip(a);
    TokenizeSkip(a + b);
    if t == [] {
      TokenizeEmpty();
      TokenizeSkip(b);
    } else {
      DropWhitespaceIsSuffix(a);
      assert t[|t| - 1] == a[|a| - 1];
      TokenizeConcatWord(t, b);
    }
  }

  /** The step of TokenizeConcat where the left part starts with a word. */
  lemma {:induction false} TokenizeConcatWord(t: string, b: string)
    requires t != [] && !IsWhitespace(t[0])
    requires b == [] || IsWhitespace(t[|t| - 1]) || IsWhitespace(b[0])
    ensures Tokenize(t + b) == Tokenize(t) + Tokenize(b)
    decreases |t|, 0
  {
    if b == [] {
      assert t + b == t;
      TokenizeEmpty();
    } else {
      var n := WordLength(t);
      var rest := t[n..];
      assert n == 1 + WordLength(t[1..]);
      assert Tokenize(t + b) == [t[..n]] + Tokenize(rest + b) by {
        if n == |t| {
          WordIsSolid(t);
          assert t[..n] == t;
        }
        WordLengthConcat(t, b);
        FirstWordOfConcat(t, b);
      }
      assert Tokenize(t) == [t[..n]] + Tokenize(rest) by {
        TokenizeWord(t);
      }
      assert Tokenize(rest + b) == Tokenize(rest) + Tokenize(b) by {
        if rest != [] {
          assert rest[|rest| - 1] == t[|t| - 1];
          TokenizeConcat(rest, b);
        } else {
          assert rest + b == b;
          TokenizeEmpty();
        }
      }
      AppendAssociative([t[..n]], Tokenize(rest), Tokenize(b));
    }
  }

  lemma AppendAssociative<T>(a: seq<T>, b: seq<T>, c: seq<T>)
    ensures a + (b + c) == a + b + c
  {
  }

  /** Appending text after a word boundary leaves the first word's length unchanged. */
  lemma WordLengthConcat(t: string, b: string)
    requires WordLength(t) < |t| || b == [] || IsWhitespace(b[0])
    ensures WordLength(t + b) == WordLength(t)
  {
    WordLengthAppend(t, b);
    if WordLength(t) == |t| && b != [] {
      assert WordLength(b) == 0;
    }
  }

  /** Appending text after a word boundary leaves the first token unchanged. */
  lemma FirstWordOfConcat(t: string, b: string)
    requires t != [] && !IsWhitespace(t[0])
    requires WordLength(t + b) == WordLength(t)
    ensures Tokenize(t + b) == [t[..WordLength(t)]] + Tokenize(t[WordLength(t)..] + b)
  {
    var n := WordLength(t);
    assert (t + b)[0] == t[0];
    TokenizeWord(t + b);
    assert (t + b)[..n] == t[..n];
    assert (t + b)[n..] == t[n..] + b;
  }

  /** A token tokenizes to itself. */
  lemma TokenizeToken(t: string)
    requires IsToken(t)
    ensures Tokenize(t) == [t]
  {
    SolidIsWord(t);
    TokenizeWord(t);
    assert t[..|t|] == t;
    TokenizeEmpty();
  }

  /** A string made of whitespace holds no token. */
  lemma TokenizeBlank(s: string)
    requires Blank(s)
    ensures Tokenize(s) == []
  {
    DropBlank(s);
    TokenizeSkip(s);
    TokenizeEmpty();
  }

  /** A whitespace character in front of a text adds no token. */
  lemma {:induction false} TokenizeLeadingSeparator(c: char, rest: string)
    requires IsWhitespace(c)
    ensures Tokenize([c] + rest) == Tokenize(rest)
  {
    TokenizeConcat([c], rest);
    TokenizeBlank([c]);
  }

  /** A whitespace character after a text adds no token. */
  lemma TokenizeThenSeparator(a: string, c: char)
    requires IsWhitespace(c)
    ensures Tokenize(a + [c]) == Tokenize(a)
  {
    TokenizeConcat(a, [c]);
    TokenizeBlank([c]);
  }

  /** A token after a text that ends in whitespace is one more token. */
  lemma TokenizeThenToken(a: string, t: string)
    requires a == [] || IsWhitespace(a[|a| - 1])
    requires IsToken(t)
    ensures Tokenize(a + t) == Tokenize(a) + [t]
  {
    TokenizeConcat(a, t);
    TokenizeToken(t);
  }

  /** Joining with one whitespace character and re-tokenizing gives the
      tokens of the parts. */
  lemma {:induction false} TokenizeJoin(parts: seq<string>, c: char)
    requires IsWhitespace(c)
    ensures Tokenize(Join(parts, [c])) == TokenizeAll(parts)
  {
    if |parts| == 0 {
      TokenizeEmpty();
    } else if |parts| == 1 {
      assert TokenizeAll(parts[1..]) == [];
    } else {
      var rest := Join(parts[1..], [c]);
      assert parts[0] + [c] + rest == parts[0] + ([c] + rest);
      TokenizeConcat(parts[0], [c] + rest);
      TokenizeConcat([c], rest);
      TokenizeBlank([c]);
      TokenizeJoin(parts[1..], c);
    }
  }

  /** Tokens re-tokenize to themselves. */
  lemma {:induction false} TokenizeAllTokens(ts: seq<string>)
    requires forall t :: t in ts ==> IsToken(t)
    ensures TokenizeAll(ts) == ts
  {
    if ts != [] {
      TokenizeToken(ts[0]);
      TokenizeAllTokens(ts[1..]);
    }
  }

  /** How the whitespace between the tokens is laid out does not matter:
      any legal layout of ts tokenizes back to ts. */
  lemma {:induction false} TokenizeLayout(ts: seq<string>, seps: seq<string>)
    requires forall t :: t in ts ==> IsToken(t)
    requires Separators(ts, seps)
    ensures Tokenize(Layout(ts, seps)) == ts
  {
    if ts == [] {
      TokenizeBlank(seps[0]);
    } else {
      var rest := Layout(ts[1..], seps[1..]);
      assert seps[0] + ts[0] + rest == seps[0] + (ts[0] + rest);
      assert Blank(seps[0]);
      TokenizeConcat(seps[0], ts[0] + rest);
      TokenizeBlank(seps[0]);
      if rest != [] {
        if |ts| == 1 {
          assert rest == seps[1];
        } else {
          assert seps[1] != [];
          assert rest[0] == seps[1][0];
        }
        assert IsWhitespace(rest[0]);
      }
      TokenizeConcat(ts[0], rest);
      TokenizeToken(ts[0]);
      TokenizeLayout(ts[1..], seps[1..]);
    }
  }
}
