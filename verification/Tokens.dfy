// Cutting a message at a separator: JavaScript split keeps empty fields, Java's StringTokenizer drops them.
module Tokens {
  import opened Wrappers

  function Split(s: string, d: char): (fs: seq<string>)
    ensures |fs| >= 1
  {
    if s == "" then [""]
    else
      var rest := Split(s[1..], d);
      if s[0] == d then [""] + rest else [[s[0]] + rest[0]] + rest[1..]
  }

  function NonEmpty(fs: seq<string>): seq<string>
  {
    if fs == [] then [] else (if fs[0] == "" then [] else [fs[0]]) + NonEmpty(fs[1..])
  }

  function Tokenize(s: string, d: char): seq<string> { NonEmpty(Split(s, d)) }

  function Join(fs: seq<string>, d: char): string
    requires fs != []
  {
    if |fs| == 1 then fs[0] else fs[0] + [d] + Join(fs[1..], d)
  }

  predicate Free(fs: seq<string>, d: char) { forall i | 0 <= i < |fs| :: d !in fs[i] }

  lemma {:induction false} SplitField(f: string, d: char, rest: string)
    requires d !in f
    ensures Split(f, d) == [f]
    ensures Split(f + [d] + rest, d) == [f] + Split(rest, d)
  {
    var s := f + [d] + rest;
    if f == "" {
      assert s[1..] == rest;
    } else {
      assert s[1..] == f[1..] + [d] + rest;
      SplitField(f[1..], d, rest);
      assert f == [f[0]] + f[1..];
    }
  }

  // Splitting what was joined gives the fields back.
  lemma {:induction false} SplitJoin(fs: seq<string>, d: char)
    requires fs != [] && Free(fs, d)
    ensures Split(Join(fs, d), d) == fs
  {
    hide Split;
    SplitField(fs[0], d, if |fs| > 1 then Join(fs[1..], d) else "");
    if |fs| > 1 {
      SplitJoin(fs[1..], d);
    }
  }

  // So does tokenizing, for the non-empty ones.
  lemma TokenizeJoin(fs: seq<string>, d: char)
    requires fs != [] && Free(fs, d)
    ensures Tokenize(Join(fs, d), d) == NonEmpty(fs)
  {
    SplitJoin(fs, d);
  }

  lemma {:induction false} NonEmptyAll(fs: seq<string>)
    ensures |NonEmpty(fs)| <= |fs|
    ensures |NonEmpty(fs)| == |fs| <==> "" !in fs
    ensures "" !in fs ==> NonEmpty(fs) == fs
  {
    if fs != [] {
      NonEmptyAll(fs[1..]);
    }
  }

  // java.util.StringTokenizer: a cursor over the tokens; nextToken fails behind the last one.
  class StringTokenizer {
    const tokens: seq<string>
    var position: nat

    constructor (s: string, d: char)
      ensures tokens == Tokenize(s, d) && position == 0
    {
      tokens := Tokenize(s, d);
      position := 0;
    }

    method NextToken() returns (r: Option<string>)
      modifies this
      ensures if old(position) < |tokens| then r == Some(tokens[old(position)]) && position == old(position) + 1
              else r == None && position == old(position)
    {
      if position < |tokens| {
        r := Some(tokens[position]);
        position := position + 1;
      } else {
        r := None;
      }
    }
  }
}
