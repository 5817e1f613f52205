/** The account list: `load_users` turns the lines of the list file into handles. */
module Users {
  import opened Text

  /** A line is kept when something other than whitespace is left after stripping
      and the line AS READ does not start with '#': an indented "  #x" is kept. */
  predicate Kept(line: string) {
    Strip(line) != [] && !(|line| > 0 && line[0] == '#')
  }

  /** The handle made from a kept line: stripped, then every leading '@' removed. */
  function Entry(line: string): string {
    StripLeftChar(Strip(line), '@')
  }

  /** The list comprehension of `load_users`, over the lines of the file in order. */
  function LoadUsers(lines: seq<string>): (users: seq<string>)
    ensures |users| <= |lines|
  {
    if lines == [] then []
    else (if Kept(lines[0]) then [Entry(lines[0])] else []) + LoadUsers(lines[1..])
  }

  /** Loading distributes over concatenation of the file: each line is handled on
      its own and the order of lines is kept. */
  lemma {:induction false} LoadUsersAppend(a: seq<string>, b: seq<string>)
    ensures LoadUsers(a + b) == LoadUsers(a) + LoadUsers(b)
  {
    if a == [] {
      assert a + b == b;
    } else {
      assert (a + b)[0] == a[0];
      assert (a + b)[1..] == a[1..] + b;
      calc {
        LoadUsers(a + b);
        (if Kept(a[0]) then [Entry(a[0])] else []) + LoadUsers(a[1..] + b);
        { LoadUsersAppend(a[1..], b); }
        (if Kept(a[0]) then [Entry(a[0])] else []) + (LoadUsers(a[1..]) + LoadUsers(b));
      }
    }
  }

  /** Every handle comes from some kept line, and every kept line yields its handle. */
  lemma {:induction false} LoadUsersMembers(lines: seq<string>)
    ensures forall u :: u in LoadUsers(lines) ==> exists k :: 0 <= k < |lines| && Kept(lines[k]) && Entry(lines[k]) == u
    ensures forall k :: 0 <= k < |lines| && Kept(lines[k]) ==> Entry(lines[k]) in LoadUsers(lines)
  {
    if lines != [] {
      LoadUsersMembers(lines[1..]);
      forall u | u in LoadUsers(lines)
        ensures exists k :: 0 <= k < |lines| && Kept(lines[k]) && Entry(lines[k]) == u
      {
        if !(Kept(lines[0]) && u == Entry(lines[0])) {
          assert u in LoadUsers(lines[1..]);
          var k :| 0 <= k < |lines[1..]| && Kept(lines[1..][k]) && Entry(lines[1..][k]) == u;
          assert lines[k + 1] == lines[1..][k];
        }
      }
      forall k | 0 <= k < |lines| && Kept(lines[k]) ensures Entry(lines[k]) in LoadUsers(lines) {
        if k > 0 {
          assert lines[1..][k - 1] == lines[k];
        }
      }
    }
  }

  /** A handle never starts with '@' and never ends with whitespace (it may start
      with whitespace that followed the markers). */
  lemma EntryShape(line: string)
    ensures var u := Entry(line); u == [] || (u[0] != '@' && !IsSpace(u[|u| - 1]))
  {
    StripSpec(line);
    StripLeftCharSpec(Strip(line), '@');
  }

  /** Every handle is free of leading '@' and of trailing whitespace. */
  lemma {:induction false} LoadUsersHandles(lines: seq<string>)
    ensures forall u :: u in LoadUsers(lines) ==> (u == [] || (u[0] != '@' && !IsSpace(u[|u| - 1])))
  {
    if lines != [] {
      EntryShape(lines[0]);
      LoadUsersHandles(lines[1..]);
    }
  }


  /** A run of '@' markers in front of a handle is removed, and nothing more. */
  lemma {:induction false} StripMarkers(markers: string, s: string)
    requires forall i :: 0 <= i < |markers| ==> markers[i] == '@'
    requires s == [] || s[0] != '@'
    ensures StripLeftChar(markers + s, '@') == s
  {
    if markers == [] {
      assert markers + s == s;
    } else {
      assert (markers + s)[1..] == markers[1..] + s;
      StripMarkers(markers[1..], s);
    }
  }

  /** A line whose stripped form is known is kept, and normalised, accordingly. */
  lemma {:induction false} LineWithStrip(line: string, stripped: string)
    requires Strip(line) == stripped
    ensures Kept(line) <==> stripped != [] && !(|line| > 0 && line[0] == '#')
    ensures Entry(line) == StripLeftChar(stripped, '@')
  {
  }

  /** A handle written on its own line, with its newline, is kept as it is. */
  lemma {:induction false} PlainLine(handle: string)
    requires handle != [] && handle[0] != '#' && handle[0] != '@'
    requires !IsSpace(handle[0]) && !IsSpace(handle[|handle| - 1])
    ensures Kept(handle + "\n") && Entry(handle + "\n") == handle
  {
    assert Strip(handle + "\n") == handle by {
      StripAround("", handle, "\n");
      assert "" + handle + "\n" == handle + "\n";
    }
    LineWithStrip(handle + "\n", handle);
  }

  /** A handle after the '@' marker, with its newline, is kept without the marker. */
  lemma {:induction false} MarkedLine(handle: string)
    requires handle != [] && handle[0] != '@' && !IsSpace(handle[|handle| - 1])
    ensures Kept("@" + handle + "\n") && Entry("@" + handle + "\n") == handle
  {
    assert Strip("@" + handle + "\n") == "@" + handle by {
      StripAround("", "@" + handle, "\n");
      assert "" + ("@" + handle) + "\n" == "@" + handle + "\n";
    }
    LineWithStrip("@" + handle + "\n", "@" + handle);
    StripMarkers("@", handle);
  }

  /** One line on its own yields its handle when kept and nothing otherwise. */
  lemma {:induction false} LoadUsersSingle(line: string)
    ensures LoadUsers([line]) == if Kept(line) then [Entry(line)] else []
  {
    assert [line][1..] == [];
  }

  /** The scenario of the account-list format, for any handles: a plain line, a
      comment, an empty line and a line with the '@' marker give exactly the two
      handles, in order. */
  lemma {:induction false} LoadUsersScenario(first: string, comment: string, second: string)
    requires first != [] && first[0] != '#' && first[0] != '@'
    requires !IsSpace(first[0]) && !IsSpace(first[|first| - 1])
    requires second != [] && second[0] != '@' && !IsSpace(second[|second| - 1])
    ensures LoadUsers([first + "\n", "#" + comment + "\n", "\n", "@" + second + "\n"]) == [first, second]
  {
    var l0, l1, l2, l3 := first + "\n", "#" + comment + "\n", "\n", "@" + second + "\n";
    assert LoadUsers([l0]) == [first] by { PlainLine(first); LoadUsersSingle(l0); }
    assert LoadUsers([l1]) == [] by { LoadUsersSingle(l1); }
    assert LoadUsers([l2]) == [] by { assert StripLeft(l2) == ""; LoadUsersSingle(l2); }
    assert LoadUsers([l3]) == [second] by { MarkedLine(second); LoadUsersSingle(l3); }
    LoadUsersAppend([l2], [l3]);
    LoadUsersAppend([l1], [l2] + [l3]);
    LoadUsersAppend([l0], [l1] + ([l2] + [l3]));
    assert [l0] + ([l1] + ([l2] + [l3])) == [l0, l1, l2, l3];
  }

  /** A lone "@" yields an empty handle. */
  lemma LoadUsersLoneMarker()
    ensures LoadUsers(["@"]) == [""]
  {
    StripAround("", "@", "");
    assert "" + "@" + "" == "@";
  }

  /** An indented comment is kept, with its '#'. */
  lemma LoadUsersIndentedComment()
    ensures LoadUsers(["  #x"]) == ["#x"]
  {
    assert Strip("  #x") == "#x" by {
      StripAround("  ", "#x", "");
      assert "  " + "#x" + "" == "  #x";
    }
    LineWithStrip("  #x", "#x");
  }

  /** A line of blanks is dropped. */
  lemma LoadUsersBlankLine()
    ensures LoadUsers([" \t "]) == []
  {
    assert StripLeft(" \t ") == "" by {
      assert StripLeft("\t ") == "" by { assert StripLeft(" ") == ""; }
    }
  }

  /** Only the markers go: "@@ bob" keeps the space that followed them. */
  lemma LoadUsersSpaceAfterMarker()
    ensures LoadUsers(["@@ bob"]) == [" bob"]
  {
    assert Strip("@@ bob") == "@@ bob" by {
      StripAround("", "@@ bob", "");
      assert "" + "@@ bob" + "" == "@@ bob";
    }
    assert StripLeftChar("@@ bob", '@') == " bob" by {
      StripMarkers("@@", " bob");
      assert "@@" + " bob" == "@@ bob";
    }
    LineWithStrip("@@ bob", "@@ bob");
    LoadUsersSingle("@@ bob");
  }
}
