/**
 * The account parser (`getAccounts`): the accounts file holds one profile URL
 * per line; each line, stripped of surrounding whitespace, yields the text
 * after its first `https://github.com/`. A line without that prefix raises
 * an IndexError, which ends the whole run.
 */
module Accounts {
  import opened Wrappers
  import opened Text

  const ProfilePrefix := "https://github.com/"

  /** The outcome of parsing the file: every handle in file order, or the (0-based) line that raised. */
  datatype Parse = Handles(handles: seq<string>) | MissingPrefix(line: nat)

  /** `line.strip().split(ProfilePrefix, 1)[1]`; None where that raises an IndexError. */
  function Handle(line: string): Option<string>
  {
    AfterFirst(Strip(line), ProfilePrefix)
  }

  /**
   * A line has a handle exactly when its stripped text contains the prefix; the
   * handle is then everything after the first occurrence of the prefix.
   */
  lemma HandleSpec(line: string)
    ensures Handle(line).Some? <==> exists j :: OccursAt(Strip(line), ProfilePrefix, j)
    ensures Handle(line).Some? ==>
      var s, h := Strip(line), Handle(line).value;
      var k := |s| - |h| - |ProfilePrefix|;
      0 <= k && s == s[..k] + ProfilePrefix + h && forall j :: 0 <= j < k ==> !OccursAt(s, ProfilePrefix, j)
  {
    var s := Strip(line);
    var r := AfterFirst(s, ProfilePrefix);
    AfterFirstSpec(s, ProfilePrefix);
    if r.Some? {
      var k := |s| - |r.value| - |ProfilePrefix|;
      assert s == s[..k] + s[k..k + |ProfilePrefix|] + s[k + |ProfilePrefix|..];
    }
  }

  /** `getAccounts` on the file's text: one handle per line, or the first line lacking the prefix. */
  method GetAccounts(text: string) returns (r: Parse)
    ensures r.Handles? <==> forall k :: 0 <= k < |SplitLines(text)| ==> Handle(SplitLines(text)[k]).Some?
    ensures r.Handles? ==> |r.handles| == |SplitLines(text)|
    ensures r.Handles? ==> forall k :: 0 <= k < |r.handles| ==> Handle(SplitLines(text)[k]) == Some(r.handles[k])
    ensures r.MissingPrefix? ==> r.line < |SplitLines(text)| && Handle(SplitLines(text)[r.line]).None?
    ensures r.MissingPrefix? ==> forall k :: 0 <= k < r.line ==> Handle(SplitLines(text)[k]).Some?
  {
    var lines := SplitLines(text);
    var accounts := [];
    for i := 0 to |lines|
      invariant |accounts| == i
      invariant forall k :: 0 <= k < i ==> Handle(lines[k]) == Some(accounts[k])
    {
      var h := Handle(lines[i]);
      if h.None? {
        assert !Handle(SplitLines(text)[i]).Some?;
        return MissingPrefix(i);
      }
      accounts := accounts + [h.value];
    }
    return Handles(accounts);
  }

  /** A line that is empty or all whitespace has no handle, so it fails the parse instead of being skipped. */
  lemma BlankLineFails(line: string)
    requires AllSpace(line)
    ensures Handle(line).None?
  {
    assert line == line + [] + [];
    StripUnique(line, [], []);
  }

  /** A profile URL, with any surrounding whitespace, yields the handle it was built from. */
  lemma ProfileUrlRoundTrip(handle: string, before: string, after: string)
    requires AllSpace(before) && AllSpace(after)
    requires handle == [] || !IsSpace(handle[|handle| - 1])
    ensures Handle(before + ProfilePrefix + handle + after) == Some(handle)
  {
    var url := ProfilePrefix + handle;
    assert before + ProfilePrefix + handle + after == before + url + after;
    assert url[0] == 'h' && url[|url| - 1] == if handle == [] then '/' else handle[|handle| - 1];
    StripUnique(before, url, after);
    assert url[0..|ProfilePrefix|] == ProfilePrefix;
    IndexOfFirst(url, ProfilePrefix, 0);
    assert url[|ProfilePrefix|..] == handle;
  }

  /** How many of the lines are non-empty. */
  function NonEmptyLines(lines: seq<string>): (n: nat)
    ensures n <= |lines|
  {
    if lines == [] then 0 else (if lines[0] != [] then 1 else 0) + NonEmptyLines(lines[1..])
  }

  /** A line that yields a handle is not empty. */
  lemma HandleLineNonEmpty(line: string)
    requires Handle(line).Some?
    ensures line != []
  {
    var s := Strip(line);
    AfterFirstSpec(s, ProfilePrefix);
    var k :| OccursAt(s, ProfilePrefix, k);
    var _ := StripPiece(line);
  }

  /** In a file that parses, every line is non-empty, so there is one handle per non-empty line. */
  lemma {:induction false} ParsedLinesNonEmpty(lines: seq<string>)
    requires forall k :: 0 <= k < |lines| ==> Handle(lines[k]).Some?
    ensures NonEmptyLines(lines) == |lines|
  {
    if lines != [] {
      HandleLineNonEmpty(lines[0]);
      ParsedLinesNonEmpty(lines[1..]);
    }
  }
}
