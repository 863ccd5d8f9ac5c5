/**
 The franchise authentication store: a text file of "$"-separated records, one a line, appended to,
 searched line by line and rewritten without the matching lines.
 */
module AuthFiles {
  import opened Wrappers
  import opened Tokens

  // ---- lines, as BufferedReader.readLine finds them: ended by \n, \r or \r\n ----

  predicate Ends(c: char) { c == '\n' || c == '\r' }

  predicate OneLine(s: string) { forall i | 0 <= i < |s| :: !Ends(s[i]) }

  function LineEnd(s: string): (k: nat)
    ensures k <= |s| && OneLine(s[..k]) && (k < |s| ==> Ends(s[k]))
  {
    if s == "" || Ends(s[0]) then 0
    else
      var k := LineEnd(s[1..]);
      assert s[..k + 1] == [s[0]] + s[1..][..k];
      k + 1
  }

  // What is left behind the end of the first line.
  function Rest(s: string): (r: string)
    ensures s != "" ==> |r| < |s|
  {
    var k := LineEnd(s);
    if k == |s| then ""
    else if s[k] == '\r' && k + 1 < |s| && s[k + 1] == '\n' then s[k + 2..]
    else s[k + 1..]
  }

  function Lines(s: string): seq<string>
    decreases |s|
  {
    if s == "" then [] else [s[..LineEnd(s)]] + Lines(Rest(s))
  }

  class BufferedReader {
    var rest: string

    constructor (text: string)
      ensures rest == text
    {
      rest := text;
    }

    method ReadLine() returns (line: Option<string>)
      modifies this
      ensures old(rest) == "" ==> line == None && rest == ""
      ensures old(rest) != "" ==>
        line == Some(old(rest)[..LineEnd(old(rest))]) && rest == Rest(old(rest)) && |rest| < |old(rest)|
      ensures Lines(old(rest)) == if line.Some? then [line.value] + Lines(rest) else []
    {
      if rest == "" {
        return None;
      }
      var k := 0;
      while k < |rest| && !Ends(rest[k])
        invariant k <= |rest| && LineEnd(rest) == k + LineEnd(rest[k..])
      {
        k := k + 1;
      }
      line := Some(rest[..k]);
      if k < |rest| && rest[k] == '\r' && k + 1 < |rest| && rest[k + 1] == '\n' {
        rest := rest[k + 2..];
      } else if k < |rest| {
        rest := rest[k + 1..];
      } else {
        rest := "";
      }
    }
  }

  lemma {:induction false} LineEndIs(l: string, x: string)
    requires OneLine(l) && (x != "" ==> Ends(x[0]))
    ensures LineEnd(l + x) == |l|
  {
    if l != "" {
      assert (l + x)[1..] == l[1..] + x;
      LineEndIs(l[1..], x);
    }
  }

  // What is left behind a line end.
  function After(t: string): (r: string)
    requires t != ""
    ensures |r| < |t|
  {
    if t[0] == '\r' && |t| > 1 && t[1] == '\n' then t[2..] else t[1..]
  }

  lemma LineStep(l: string, t: string)
    requires OneLine(l) && t != "" && Ends(t[0])
    ensures Lines(l + t) == [l] + Lines(After(t))
  {
    hide LineEnd;
    LineEndIs(l, t);
    var g := l + t;
    assert g[..|l|] == l && g[|l| + 1..] == t[1..];
    if |t| > 1 {
      assert g[|l| + 2..] == t[2..] && g[|l| + 1] == t[1];
    }
  }

  lemma LastLine(l: string)
    requires OneLine(l) && l != ""
    ensures Lines(l) == [l]
  {
    LineEndIs(l, "");
    assert l + "" == l;
  }

  // Whether a newline put behind a text stands alone on a line of its own.
  predicate LeavesBlank(f: string) { f == "" || f[|f| - 1] == '\n' }

  // What a newline and more text behind a file make of its lines.
  lemma {:induction false} LinesBehind(f: string, x: string)
    ensures Lines(f + "\n" + x) == Lines(f) + (if LeavesBlank(f) then [""] else []) + Lines(x)
    decreases |f|
  {
    hide LineEnd, Rest, Lines;
    var l, t := f[..LineEnd(f)], f[LineEnd(f)..];
    assert f + "\n" + x == l + (t + "\n" + x) && f == l + t;
    LineStep(l, t + "\n" + x);
    if f == "" {
      assert Lines("") == [] by { NoLines(); }
      assert After(t + "\n" + x) == x;
    } else if t == "" {
      LastLine(l);
      assert l == f && After("\n" + x) == x && t + "\n" + x == "\n" + x;
    } else {
      LineStep(l, t);
      if t == "\r" {
        assert Lines("") == [] by { NoLines(); }
        assert After(t + "\n" + x) == x && After(t) == "";
      } else {
        assert After(t + "\n" + x) == After(t) + "\n" + x;
        LinesBehind(After(t), x);
        assert LeavesBlank(f) <==> LeavesBlank(After(t));
      }
    }
  }

  lemma NoLines()
    ensures Lines("") == []
  {
  }

  // Text put directly behind a file opens a new line exactly behind a line end.
  lemma {:induction false} LinesGlued(f: string, l: string)
    requires OneLine(l) && l != ""
    ensures f == "" || Ends(f[|f| - 1]) ==> Lines(f + l) == Lines(f) + [l]
    ensures f != "" && !Ends(f[|f| - 1]) ==> |Lines(f + l)| == |Lines(f)|
    decreases |f|
  {
    hide LineEnd, Rest, Lines;
    var h, t := f[..LineEnd(f)], f[LineEnd(f)..];
    assert f == h + t && f + l == h + (t + l);
    if t == "" {
      assert f == h && f + l == h + l;
      LastLine(h + l);
      if f == "" {
        assert Lines("") == [] by { NoLines(); }
        assert h + l == l;
      } else {
        LastLine(f);
      }
    } else {
      LineStep(h, t);
      LineStep(h, t + l);
      assert After(t + l) == After(t) + l by { assert !Ends(l[0]); }
      LinesGlued(After(t), l);
      assert f[|f| - 1] == t[|t| - 1];
    }
  }

  // ---- records ----

  datatype Record = Record(id: string, salt: string, psw: string, failCount: string, modified: string)

  function FieldsOf(r: Record): seq<string> { [r.id, r.salt, r.psw, r.failCount, r.modified] }

  // franchiseAuthDBAddProcess
  function Print(r: Record): string { r.id + "$" + (r.salt + "$" + (r.psw + "$" + (r.failCount + "$" + r.modified))) }

  // Five calls of nextToken; None stands for NoSuchElementException.
  function Parse(line: string): Option<Record>
  {
    var ts := Tokenize(line, '$');
    if |ts| < 5 then None else Some(Record(ts[0], ts[1], ts[2], ts[3], ts[4]))
  }

  predicate Printable(r: Record) { "" !in FieldsOf(r) && Free(FieldsOf(r), '$') }

  predicate Good(r: Record) { Printable(r) && forall f | f in FieldsOf(r) :: OneLine(f) }

  lemma {:induction false} SplitFree(s: string, d: char)
    ensures Free(Split(s, d), d)
  {
    if s != "" {
      SplitFree(s[1..], d);
    }
  }

  lemma {:induction false} TokensAre(fs: seq<string>, d: char)
    requires Free(fs, d)
    ensures "" !in NonEmpty(fs) && Free(NonEmpty(fs), d)
  {
    if fs != [] {
      TokensAre(fs[1..], d);
    }
  }

  // A record is read back from its line exactly if its fields are not empty and hold no separator.
  lemma PrintThenParse(r: Record)
    ensures Parse(Print(r)) == Some(r) <==> Printable(r)
  {
    hide Split, NonEmpty;
    if Printable(r) {
      var fs := FieldsOf(r);
      assert forall i | 0 <= i < 5 :: '$' !in fs[i];
      SplitField(fs[0], '$', fs[1] + "$" + (fs[2] + "$" + (fs[3] + "$" + fs[4])));
      SplitField(fs[1], '$', fs[2] + "$" + (fs[3] + "$" + fs[4]));
      SplitField(fs[2], '$', fs[3] + "$" + fs[4]);
      SplitField(fs[3], '$', fs[4]);
      SplitField(fs[4], '$', "");
      assert Split(Print(r), '$') == fs;
      NonEmptyAll(fs);
    }
    if Parse(Print(r)) == Some(r) {
      SplitFree(Print(r), '$');
      TokensAre(Split(Print(r), '$'), '$');
      var ts := Tokenize(Print(r), '$');
      assert FieldsOf(r) == ts[..5];
    }
  }

  function PrintAll(rs: seq<Record>): seq<string> { seq(|rs|, i requires 0 <= i < |rs| => Print(rs[i])) }

  predicate AllGood(rs: seq<Record>) { forall i | 0 <= i < |rs| :: Good(rs[i]) }

  lemma GoodLine(r: Record)
    requires Good(r)
    ensures OneLine(Print(r)) && Print(r) != "" && Parse(Print(r)) == Some(r)
  {
    PrintThenParse(r);
    assert forall i | 0 <= i < 5 :: OneLine(FieldsOf(r)[i]);
    assert OneLine(r.id) && OneLine(r.salt) && OneLine(r.psw) && OneLine(r.failCount) && OneLine(r.modified) by {
      assert FieldsOf(r)[0] == r.id && FieldsOf(r)[1] == r.salt && FieldsOf(r)[2] == r.psw
        && FieldsOf(r)[3] == r.failCount && FieldsOf(r)[4] == r.modified;
    }
  }

  // The file is a list of records.
  predicate Represents(f: string, rs: seq<Record>) { Lines(f) == PrintAll(rs) }

  // ---- reading ----

  datatype Search = Hit(r: Record) | Miss | Broken

  // The first record of that id; Broken when an unreadable line comes before it.
  function Find(ls: seq<string>, id: string): Search
  {
    if ls == [] then Miss
    else match Parse(ls[0])
         case None => Broken
         case Some(r) => if r.id == id then Hit(r) else Find(ls[1..], id)
  }

  // Every line but those of that id; None when some line is unreadable.
  function Kept(ls: seq<string>, id: string): Option<seq<string>>
  {
    if ls == [] then Some([])
    else match (Parse(ls[0]), Kept(ls[1..], id))
         case (Some(r), Some(rest)) => Some((if r.id == id then [] else [ls[0]]) + rest)
         case _ => None
  }

  predicate Mentions(ls: seq<string>, id: string)
  {
    exists i | 0 <= i < |ls| :: Parse(ls[i]).Some? && Parse(ls[i]).value.id == id
  }

  function Written(ls: seq<string>, newline: string): string
  {
    if ls == [] then "" else Written(ls[..|ls| - 1], newline) + ls[|ls| - 1] + newline
  }

  datatype System = Windows | Linux | Other

  function Prefix(os: System): string
  {
    match os
    case Windows => "\n"
    case Linux => "\n\r"
    case Other => ""
  }

  function NewLine(os: System): string { if os == Windows then "\r\n" else "\n" }

  // None in a result stands for null, an outer None for an exception.
  class FranchiseAuthDB {
    var file: Option<string>
    const os: System

    constructor (os: System, file: Option<string>)
      ensures this.os == os && this.file == file
    {
      this.os, this.file := os, file;
    }

    // A new file is reported as a failure, although it is written.
    method FileStorageProcess(record: string) returns (result: string)
      modifies this
      ensures old(file).None? ==> file == Some(record) && result == "0x6021"
      ensures old(file).Some? ==> file == Some(old(file).value + (Prefix(os) + record)) && result == "0x6020"
    {
      result := "0x6021";
      if file.None? {
        file := Some(record);
      } else {
        var storage := record;
        if os == Windows {
          storage := "\n" + storage;
        }
        if os == Linux {
          storage := "\n\r" + storage;
        }
        assert storage == Prefix(os) + record;
        file := Some(file.value + storage);
        result := "0x6020";
      }
    }

    // The five nextToken calls all three loops begin with.
    static method FiveTokens(line: string) returns (r: Option<Record>)
      ensures r == Parse(line)
    {
      hide Tokenize;
      var st := new StringTokenizer(line, '$');
      var atFranchiseId := st.NextToken();
      var atSalt := st.NextToken();
      var atCipheredPsw := st.NextToken();
      var atAuthFailCount := st.NextToken();
      var atLastModified := st.NextToken();
      if atLastModified.None? {
        return None;
      }
      r := Some(Record(atFranchiseId.value, atSalt.value, atCipheredPsw.value, atAuthFailCount.value,
        atLastModified.value));
    }

    // The loop of searching and getting.
    method Scan(id: string) returns (s: Search)
      requires file.Some?
      ensures s == Find(Lines(file.value), id)
    {
      hide Parse, Lines, LineEnd, Rest;
      var br := new BufferedReader(file.value);
      var line := br.ReadLine();
      while line.Some?
        invariant Find(Lines(file.value), id) == Find(if line.Some? then [line.value] + Lines(br.rest) else [], id)
        decreases line.Some?, |br.rest|
      {
        var at := FiveTokens(line.value);
        if at.None? {
          return Broken;
        }
        if id == at.value.id {
          return Hit(at.value);
        }
        line := br.ReadLine();
      }
      s := Miss;
    }

    method SearchProcess(id: string) returns (r: Option<Option<string>>)
      ensures r == if file.None? then Some(None) else
        match Find(Lines(file.value), id)
        case Hit(_) => Some(Some("0x6010"))
        case Miss => Some(Some("0x6011"))
        case Broken => None
    {
      if file.None? {
        return Some(None);
      }
      var s := Scan(id);
      match s
      case Hit(_) => r := Some(Some("0x6010"));
      case Miss => r := Some(Some("0x6011"));
      case Broken => r := None;
    }

    // id is the decoded argument.
    method GetProcess(id: string) returns (r: Option<Option<string>>)
      ensures r == if file.None? then Some(None) else
        match Find(Lines(file.value), id)
        case Hit(found) => Some(Some(found.salt + "$" + found.psw))
        case Miss => Some(None)
        case Broken => None
    {
      if file.None? {
        return Some(None);
      }
      var s := Scan(id);
      match s
      case Hit(found) => r := Some(Some(found.salt + "$" + found.psw));
      case Miss => r := Some(None);
      case Broken => r := None;
    }

    // The loop of removing: the text of the temporary file and whether a line was left out.
    static method CopyOthers(text: string, id: string, newline: string) returns (r: Option<string>, matched: bool)
      ensures r.Some? <==> Kept(Lines(text), id).Some?
      ensures r.Some?
        ==> r.value == Written(Kept(Lines(text), id).value, newline) && matched == Mentions(Lines(text), id)
    {
      hide Parse, Lines, LineEnd, Rest, Mentions, Written, Kept;
      NothingYet(id, newline);
      var br := new BufferedReader(text);
      var temp := "";
      matched := false;
      ghost var done, kept: seq<string> := [], [];
      var line := br.ReadLine();
      while line.Some?
        modifies br
        invariant Lines(text) == done + if line.Some? then [line.value] + Lines(br.rest) else []
        invariant Kept(done, id) == Some(kept) && temp == Written(kept, newline)
        invariant matched == Mentions(done, id)
        decreases line.Some?, |br.rest|
      {
        var at := FiveTokens(line.value);
        if at.None? {
          KeptBroken(Lines(text), id, |done|);
          return None, matched;
        }
        KeptSnoc(done, line.value, id);
        MentionsSnoc(done, line.value, id);
        if at.value.id != id {
          WrittenSnoc(kept, line.value, newline);
          temp := temp + line.value + newline;
          kept := kept + [line.value];
        } else {
          matched := true;
          assert kept + [] == kept;
        }
        done := done + [line.value];
        line := br.ReadLine();
      }
      assert done == Lines(text);
      r := Some(temp);
    }

    method RemoveRecordProcess(id: string) returns (r: Option<string>)
      modifies this
      ensures old(file).None? ==> r == Some("0x6053") && file == None
      ensures old(file).Some? && Kept(Lines(old(file).value), id).None? ==> r == None && file == old(file)
      ensures old(file).Some? && Kept(Lines(old(file).value), id).Some? ==>
        && file == Some(Written(Kept(Lines(old(file).value), id).value, NewLine(os)))
        && r == Some(if Mentions(Lines(old(file).value), id) then "0x6050" else "0x6051")
    {
      hide Kept, Lines, Mentions, Written;
      var authDBDelete := "0x6051";
      if file.None? {
        return Some("0x6053");
      }
      var temp, matched := CopyOthers(file.value, id, NewLine(os));
      if temp.None? {
        return None;
      }
      if matched {
        authDBDelete := "0x6050";
      }
      file := temp;
      r := Some(authDBDelete);
    }
  }

  lemma NothingYet(id: string, newline: string)
    ensures Kept([], id) == Some([]) && !Mentions([], id) && Written([], newline) == ""
  {
  }

  lemma WrittenSnoc(ls: seq<string>, l: string, newline: string)
    ensures Written(ls + [l], newline) == Written(ls, newline) + l + newline
  {
    assert (ls + [l])[..|ls|] == ls;
  }

  lemma KeptOne(l: string, id: string)
    ensures Kept([], id) == Some([])
    ensures Kept([l], id) == match Parse(l)
      case None => None
      case Some(r) => Some(if r.id == id then [] else [l])
  {
    hide Parse;
    var one := [l];
    assert one[1..] == [] && Kept(one[1..], id) == Some([]);
    if Parse(l).Some? {
      var a := if Parse(l).value.id == id then [] else [l];
      assert a + [] == a && one[0] == l;
      assert Kept(one, id) == Some(a + []);
    }
  }

  lemma {:induction false} KeptSnoc(ls: seq<string>, l: string, id: string)
    requires Kept(ls, id).Some?
    ensures Parse(l).None? ==> Kept(ls + [l], id).None?
    ensures Parse(l).Some? ==>
      Kept(ls + [l], id) == Some(Kept(ls, id).value + if Parse(l).value.id == id then [] else [l])
  {
    hide Parse;
    if ls == [] {
      assert ls + [l] == [l];
      KeptOne(l, id);
    } else {
      assert (ls + [l])[1..] == ls[1..] + [l];
      KeptSnoc(ls[1..], l, id);
      if Parse(l).Some? {
        var a := if Parse(ls[0]).value.id == id then [] else [ls[0]];
        var b := if Parse(l).value.id == id then [] else [l];
        assert a + (Kept(ls[1..], id).value + b) == (a + Kept(ls[1..], id).value) + b;
      }
    }
  }

  lemma {:induction false} KeptBroken(ls: seq<string>, id: string, i: nat)
    requires i < |ls| && Parse(ls[i]).None?
    ensures Kept(ls, id).None?
  {
    hide Parse;
    if i > 0 {
      KeptBroken(ls[1..], id, i - 1);
    }
  }

  lemma MentionsSnoc(ls: seq<string>, l: string, id: string)
    ensures Mentions(ls + [l], id) <==> Mentions(ls, id) || (Parse(l).Some? && Parse(l).value.id == id)
  {
    hide Parse;
    var all := ls + [l];
    if Mentions(ls, id) {
      var i :| 0 <= i < |ls| && Parse(ls[i]).Some? && Parse(ls[i]).value.id == id;
      assert all[i] == ls[i];
    }
    assert all[|ls|] == l;
  }
}
