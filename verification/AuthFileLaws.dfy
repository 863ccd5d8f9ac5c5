// The authentication file as a list of records, and when it stops being one.
module AuthFileLaws {
  import opened Wrappers
  import opened Tokens
  import opened AuthFiles

  // ---- the list ----

  function First(rs: seq<Record>, id: string): Search
  {
    if rs == [] then Miss else if rs[0].id == id then Hit(rs[0]) else First(rs[1..], id)
  }

  function Without(rs: seq<Record>, id: string): seq<Record>
  {
    if rs == [] then [] else (if rs[0].id == id then [] else [rs[0]]) + Without(rs[1..], id)
  }

  predicate Member(rs: seq<Record>, id: string) { exists i | 0 <= i < |rs| :: rs[i].id == id }

  // First is the record of the least index, and Miss means absence.
  lemma {:induction false} FirstIs(rs: seq<Record>, id: string)
    ensures First(rs, id) == Miss <==> !Member(rs, id)
    ensures First(rs, id) != Broken
    ensures First(rs, id).Hit? ==>
      exists i | 0 <= i < |rs| :: First(rs, id) == Hit(rs[i]) && rs[i].id == id && !Member(rs[..i], id)
  {
    if rs != [] {
      FirstIs(rs[1..], id);
      if rs[0].id == id {
        assert !Member(rs[..0], id);
      } else {
        if Member(rs, id) {
          var i :| 0 <= i < |rs| && rs[i].id == id;
          assert rs[1..][i - 1] == rs[i];
        }
        if First(rs, id).Hit? {
          var i :| 0 <= i < |rs[1..]| && First(rs[1..], id) == Hit(rs[1..][i]) && rs[1..][i].id == id
            && !Member(rs[1..][..i], id);
          assert rs[i + 1] == rs[1..][i];
          var front := rs[..i + 1];
          assert front[1..] == rs[1..][..i];
          MemberFront(front, id);
        }
      }
    }
  }

  // Without drops every match and nothing else, and keeps the order of the others.
  lemma {:induction false} WithoutDrops(rs: seq<Record>, id: string)
    ensures !Member(Without(rs, id), id)
    ensures !Member(rs, id) ==> Without(rs, id) == rs
  {
    if rs != [] {
      WithoutDrops(rs[1..], id);
      MemberFront(rs, id);
      if rs[0].id != id {
        MemberFront(Without(rs, id), id);
        assert Without(rs, id)[1..] == Without(rs[1..], id);
      }
    }
  }

  lemma {:induction false} WithoutKeeps(rs: seq<Record>, id: string, r: Record)
    requires r.id != id
    ensures multiset(Without(rs, id))[r] == multiset(rs)[r]
    ensures First(Without(rs, id), r.id) == First(rs, r.id)
  {
    if rs != [] {
      var rest := Without(rs[1..], id);
      WithoutKeeps(rs[1..], id, r);
      assert rs == [rs[0]] + rs[1..];
      assert multiset(rs) == multiset{rs[0]} + multiset(rs[1..]);
      if rs[0].id == id {
        assert Without(rs, id) == rest;
      } else {
        assert Without(rs, id) == [rs[0]] + rest && Without(rs, id)[1..] == rest;
        assert multiset([rs[0]] + rest) == multiset{rs[0]} + multiset(rest);
      }
    }
  }

  // ---- reading the file reads the list ----

  lemma PrintAllFront(r: Record, rs: seq<Record>)
    ensures PrintAll([r] + rs) == [Print(r)] + PrintAll(rs)
  {
    hide Print;
  }

  lemma PrintAllSnoc(rs: seq<Record>, r: Record)
    ensures PrintAll(rs + [r]) == PrintAll(rs) + [Print(r)]
  {
    hide Print;
  }

  // What stands behind the records is read only when no record matches.
  lemma {:induction false} FindBehind(rs: seq<Record>, more: seq<string>, id: string)
    requires AllGood(rs)
    ensures Find(PrintAll(rs) + more, id) == if Member(rs, id) then First(rs, id) else Find(more, id)
  {
    hide Print, Parse;
    if rs == [] {
      assert PrintAll(rs) + more == more;
    } else {
      assert rs == [rs[0]] + rs[1..];
      PrintAllFront(rs[0], rs[1..]);
      GoodLine(rs[0]);
      FindBehind(rs[1..], more, id);
      var all := PrintAll(rs) + more;
      assert all[0] == Print(rs[0]) && all[1..] == PrintAll(rs[1..]) + more;
      MemberFront(rs, id);
    }
  }

  lemma MemberFront(rs: seq<Record>, id: string)
    requires rs != []
    ensures Member(rs, id) <==> rs[0].id == id || Member(rs[1..], id)
  {
    if Member(rs, id) {
      var i :| 0 <= i < |rs| && rs[i].id == id;
      if i > 0 {
        assert rs[1..][i - 1] == rs[i];
      }
    }
    if Member(rs[1..], id) {
      var i :| 0 <= i < |rs[1..]| && rs[1..][i].id == id;
      assert rs[i + 1] == rs[1..][i];
    }
  }

  // Searching answers membership and getting returns the first match.
  lemma SearchesAnswer(f: string, rs: seq<Record>, id: string)
    requires Represents(f, rs) && AllGood(rs)
    ensures Find(Lines(f), id) == First(rs, id)
    ensures Find(Lines(f), id) == Miss <==> !Member(rs, id)
  {
    FindBehind(rs, [], id);
    FirstIs(rs, id);
    assert PrintAll(rs) + [] == PrintAll(rs);
  }

  // ---- removing ----

  lemma {:induction false} KeptIs(rs: seq<Record>, id: string)
    requires AllGood(rs)
    ensures Kept(PrintAll(rs), id) == Some(PrintAll(Without(rs, id)))
    ensures Mentions(PrintAll(rs), id) <==> Member(rs, id)
    ensures AllGood(Without(rs, id))
  {
    hide Print, Parse, Good;
    if rs != [] {
      var ls := PrintAll(rs);
      assert rs == [rs[0]] + rs[1..];
      PrintAllFront(rs[0], rs[1..]);
      GoodLine(rs[0]);
      KeptIs(rs[1..], id);
      assert ls[0] == Print(rs[0]) && ls[1..] == PrintAll(rs[1..]);
      if rs[0].id == id {
        assert [] + Without(rs[1..], id) == Without(rs[1..], id);
        assert [] + PrintAll(Without(rs[1..], id)) == PrintAll(Without(rs[1..], id));
      } else {
        PrintAllFront(rs[0], Without(rs[1..], id));
      }
      MemberFront(rs, id);
      MentionsFront(ls, id);
    }
  }

  lemma MentionsFront(ls: seq<string>, id: string)
    requires ls != []
    ensures Mentions(ls, id) <==> (Parse(ls[0]).Some? && Parse(ls[0]).value.id == id) || Mentions(ls[1..], id)
  {
    hide Parse;
    if Mentions(ls, id) {
      var i :| 0 <= i < |ls| && Parse(ls[i]).Some? && Parse(ls[i]).value.id == id;
      if i > 0 {
        assert ls[1..][i - 1] == ls[i];
      }
    }
    if Mentions(ls[1..], id) {
      var i :| 0 <= i < |ls[1..]| && Parse(ls[1..][i]).Some? && Parse(ls[1..][i]).value.id == id;
      assert ls[i + 1] == ls[1..][i];
    }
  }

  lemma {:induction false} WrittenFront(l: string, ls: seq<string>, newline: string)
    ensures Written([l] + ls, newline) == l + newline + Written(ls, newline)
  {
    if ls == [] {
      assert [l] + ls == [l] && [l][..0] == [];
    } else {
      var all := [l] + ls;
      assert all[..|all| - 1] == [l] + ls[..|ls| - 1];
      WrittenFront(l, ls[..|ls| - 1], newline);
    }
  }

  // Lines that are written are read again.
  lemma {:induction false} WrittenLines(ls: seq<string>, newline: string)
    requires newline == "\n" || newline == "\r\n"
    requires forall i | 0 <= i < |ls| :: OneLine(ls[i])
    ensures Lines(Written(ls, newline)) == ls
    ensures ls != [] ==> LeavesBlank(Written(ls, newline))
  {
    hide Lines, Written;
    NoLines();
    NothingYet("", newline);
    if ls != [] {
      var rest := Written(ls[1..], newline);
      assert ls == [ls[0]] + ls[1..];
      WrittenFront(ls[0], ls[1..], newline);
      WrittenLines(ls[1..], newline);
      LineStep(ls[0], newline + rest);
      assert ls[0] + newline + rest == ls[0] + (newline + rest);
      assert After(newline + rest) == rest;
    }
  }

  // Only under Windows, and only where a record is left, does the file written contain carriage returns.
  lemma {:induction false} ReturnsWritten(ls: seq<string>, os: System)
    requires forall i | 0 <= i < |ls| :: OneLine(ls[i])
    ensures '\r' in Written(ls, NewLine(os)) <==> os == Windows && ls != []
  {
    if ls != [] {
      ReturnsWritten(ls[..|ls| - 1], os);
      var front, last := Written(ls[..|ls| - 1], NewLine(os)), ls[|ls| - 1];
      assert '\r' !in last;
      assert "\r\n"[0] == '\r' && '\r' !in "\n";
      assert '\r' in front + last + NewLine(os) <==> '\r' in front || '\r' in NewLine(os);
    }
  }

  // Removing leaves the list without the matching records, and says whether there was one.
  lemma RemovalRefines(f: string, rs: seq<Record>, id: string, os: System)
    requires Represents(f, rs) && AllGood(rs)
    ensures Kept(Lines(f), id).Some?
    ensures Represents(Written(Kept(Lines(f), id).value, NewLine(os)), Without(rs, id)) && AllGood(Without(rs, id))
    ensures Mentions(Lines(f), id) <==> Member(rs, id)
    ensures LeavesBlank(Written(Kept(Lines(f), id).value, NewLine(os)))
  {
    hide Lines, Print;
    KeptIs(rs, id);
    var left := Without(rs, id);
    forall i | 0 <= i < |left|
      ensures OneLine(PrintAll(left)[i])
    {
      GoodLine(left[i]);
    }
    WrittenLines(PrintAll(left), NewLine(os));
  }

  // ---- appending ----

  // Where the system's prefix puts a record on a line of its own with no blank line before it.
  predicate Fits(os: System, f: string)
  {
    match os
    case Windows => !LeavesBlank(f)
    case Linux => false
    case Other => f == "" || Ends(f[|f| - 1])
  }

  /**
   Appending a record to the file appends it to the list exactly on Windows when the file does not end
   with a newline, and on a system without a prefix when it ends with a line end: never under Linux,
   whose prefix always leaves a blank line.
   */
  lemma AppendRefinesIff(os: System, f: string, rs: seq<Record>, r: Record)
    requires Represents(f, rs) && Good(r)
    ensures Represents(f + (Prefix(os) + Print(r)), rs + [r]) <==> Fits(os, f)
  {
    hide Print, Lines;
    GoodLine(r);
    PrintAllSnoc(rs, r);
    LastLine(Print(r));
    match os
    case Windows =>
      LinesBehind(f, Print(r));
      assert f + ("\n" + Print(r)) == f + "\n" + Print(r);
    case Linux =>
      LinuxLines(f, r);
    case Other =>
      LinesGlued(f, Print(r));
      assert "" + Print(r) == Print(r);
  }

  lemma LinuxLines(f: string, r: Record)
    requires Good(r)
    ensures Lines(f + (Prefix(Linux) + Print(r))) == Lines(f) + (if LeavesBlank(f) then [""] else []) + ["", Print(r)]
  {
    hide Print, Lines;
    GoodLine(r);
    LastLine(Print(r));
    LinesBehind(f, "\r" + Print(r));
    LineStep("", "\r" + Print(r));
    assert "" + ("\r" + Print(r)) == "\r" + Print(r);
    assert After("\r" + Print(r)) == Print(r) by { assert !Ends(Print(r)[0]); }
    assert f + ("\n\r" + Print(r)) == f + "\n" + ("\r" + Print(r));
  }

  // A blank line breaks every search that reaches it: the record just appended is never found.
  lemma BlankLineHides(f: string, rs: seq<Record>, more: seq<string>, id: string)
    requires AllGood(rs) && Lines(f) == PrintAll(rs) + [""] + more
    ensures Find(Lines(f), id) == if Member(rs, id) then First(rs, id) else Broken
    ensures Kept(Lines(f), id).None?
  {
    hide Lines;
    FindBehind(rs, [""] + more, id);
    assert PrintAll(rs) + [""] + more == PrintAll(rs) + ([""] + more);
    assert Split("", '$') == [""] && NonEmpty([""]) == [];
    assert Parse("").None?;
    KeptBroken(Lines(f), id, |rs|);
  }

  // The first append under Linux, and the first one after a removal under Windows.
  lemma LinuxAppendHides(f: string, rs: seq<Record>, r: Record, id: string)
    requires Represents(f, rs) && AllGood(rs) && Good(r)
    ensures var g := f + (Prefix(Linux) + Print(r));
      && Find(Lines(g), id) == (if Member(rs, id) then First(rs, id) else Broken)
      && Kept(Lines(g), id).None?
  {
    hide Print, Lines, Find;
    LinuxLines(f, r);
    var g := f + (Prefix(Linux) + Print(r));
    if LeavesBlank(f) {
      assert Lines(g) == PrintAll(rs) + [""] + ["", Print(r)];
      BlankLineHides(g, rs, ["", Print(r)], id);
    } else {
      assert Lines(g) == PrintAll(rs) + [""] + [Print(r)];
      BlankLineHides(g, rs, [Print(r)], id);
    }
  }

  lemma AppendAfterRemovalHides(f: string, rs: seq<Record>, removed: string, r: Record, id: string)
    requires Represents(f, rs) && AllGood(rs) && Good(r)
    ensures Kept(Lines(f), removed).Some?
    ensures var g := Written(Kept(Lines(f), removed).value, NewLine(Windows)) + (Prefix(Windows) + Print(r));
      var left := Without(rs, removed);
      && Find(Lines(g), id) == (if Member(left, id) then First(left, id) else Broken)
      && Kept(Lines(g), id).None?
  {
    hide Print, Lines, Find, Kept;
    RemovalRefines(f, rs, removed, Windows);
    var w := Written(Kept(Lines(f), removed).value, NewLine(Windows));
    GoodLine(r);
    LastLine(Print(r));
    LinesBehind(w, Print(r));
    var g := w + (Prefix(Windows) + Print(r));
    assert g == w + "\n" + Print(r);
    BlankLineHides(g, Without(rs, removed), [Print(r)], id);
  }

  // ---- runs ----

  function Appended(f: string, rs: seq<Record>): string
    decreases |rs|
  {
    if rs == [] then f else Appended(f + (Prefix(Windows) + Print(rs[0])), rs[1..])
  }

  // After any run of appends under Windows to a file of records that does not end with a newline, the
  // file is the list with the new records behind it, ready for more.
  lemma {:induction false} AppendsRefine(f: string, rs: seq<Record>, added: seq<Record>)
    requires Represents(f, rs) && !LeavesBlank(f) && AllGood(added)
    ensures Represents(Appended(f, added), rs + added) && !LeavesBlank(Appended(f, added))
    decreases |added|
  {
    hide Represents, Print;
    if added == [] {
      assert rs + added == rs;
    } else {
      var r := added[0];
      var g := f + (Prefix(Windows) + Print(r));
      AppendRefinesIff(Windows, f, rs, r);
      GoodLine(r);
      assert g[|g| - 1] == Print(r)[|Print(r)| - 1] && !Ends(g[|g| - 1]);
      AppendsRefine(g, rs + [r], added[1..]);
      assert rs + [r] + added[1..] == rs + added;
    }
  }

  // From the first record on: what the store answers after any run of appends to a missing file.
  lemma StoreFromNothing(r: Record, added: seq<Record>, id: string)
    requires AllGood([r] + added)
    ensures Find(Lines(Appended(Print(r), added)), id) == First([r] + added, id)
    ensures Find(Lines(Appended(Print(r), added)), id) == Miss <==> !Member([r] + added, id)
  {
    hide Represents, Print, Find, First, Member, Good;
    assert Good(([r] + added)[0]);
    GoodLine(r);
    LastLine(Print(r));
    assert Represents(Print(r), [r]) by { OneRecord(r); }
    forall i | 0 <= i < |added|
      ensures Good(added[i])
    {
      assert added[i] == ([r] + added)[i + 1];
    }
    assert !Ends(Print(r)[|Print(r)| - 1]);
    AppendsRefine(Print(r), [r], added);
    SearchesAnswer(Appended(Print(r), added), [r] + added, id);
  }

  lemma OneRecord(r: Record)
    requires Good(r)
    ensures Represents(Print(r), [r])
  {
    hide Print;
    GoodLine(r);
    LastLine(Print(r));
  }
}
