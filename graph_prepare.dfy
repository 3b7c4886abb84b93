/** The input checks of GraphPrepare.cpp that do not touch the file: the node
    name cleaner, the node and edge count checks, and the rejection of a name
    that cleans to nothing. */
module GraphPrepare {
  import opened Failures

  /** An ASCII letter or digit. */
  predicate IsAlnum(ch: char) {
    'a' <= ch <= 'z' || 'A' <= ch <= 'Z' || '0' <= ch <= '9'
  }

  /** The name the cleaner builds from `name`, one character at a time from
      the left: a letter or digit is always kept, a space only when something
      has been kept already and the last kept character is not a space, and
      anything else is dropped. */
  function CleanName(name: string): string
    decreases |name|
  {
    if name == [] then []
    else
      var kept := CleanName(name[..|name| - 1]);
      var ch := name[|name| - 1];
      if IsAlnum(ch) || (kept != [] && ch == ' ' && kept[|kept| - 1] != ' ')
      then kept + [ch]
      else kept
  }

  /** The letters and digits of `s`, in order. */
  function Alnums(s: string): string
    decreases |s|
  {
    if s == [] then []
    else Alnums(s[..|s| - 1]) + (if IsAlnum(s[|s| - 1]) then [s[|s| - 1]] else [])
  }

  /** A clean name: only letters, digits and spaces, no leading space and no
      two spaces in a row. */
  predicate WellFormedName(s: string) {
    && (forall i :: 0 <= i < |s| ==> IsAlnum(s[i]) || s[i] == ' ')
    && (s != [] ==> s[0] != ' ')
    && (forall i :: 0 < i < |s| ==> !(s[i - 1] == ' ' && s[i] == ' '))
  }

  /** The cleaner's output is well formed. */
  lemma {:induction false} CleanNameWellFormed(name: string)
    ensures WellFormedName(CleanName(name))
    decreases |name|
  {
    if name != [] {
      CleanNameWellFormed(name[..|name| - 1]);
    }
  }

  /** The cleaner keeps every letter and digit of its input, in order, and adds
      nothing, so its output is never longer than its input. */
  lemma {:induction false} CleanNameKeepsAlnums(name: string)
    ensures Alnums(CleanName(name)) == Alnums(name)
    ensures |CleanName(name)| <= |name|
    decreases |name|
  {
    if name != [] {
      var init := name[..|name| - 1];
      CleanNameKeepsAlnums(init);
      var kept := CleanName(init);
      var ch := name[|name| - 1];
      if IsAlnum(ch) || (kept != [] && ch == ' ' && kept[|kept| - 1] != ' ') {
        assert (kept + [ch])[..|kept + [ch]| - 1] == kept;
      }
    }
  }

  /** A well-formed name passes through the cleaner unchanged. */
  lemma {:induction false} CleanNameFixesWellFormed(s: string)
    requires WellFormedName(s)
    ensures CleanName(s) == s
    decreases |s|
  {
    if s != [] {
      var init := s[..|s| - 1];
      assert WellFormedName(init) by {
        forall i | 0 < i < |init| ensures !(init[i - 1] == ' ' && init[i] == ' ') {
          assert init[i - 1] == s[i - 1] && init[i] == s[i];
        }
      }
      CleanNameFixesWellFormed(init);
      assert s == init + [s[|s| - 1]];
    }
  }

  /** Cleaning a cleaned name changes nothing. */
  lemma CleanNameIdempotent(name: string)
    ensures CleanName(CleanName(name)) == CleanName(name)
  {
    CleanNameWellFormed(name);
    CleanNameFixesWellFormed(CleanName(name));
  }

  /** `s` has no letter or digit exactly when its letters and digits are none. */
  lemma {:induction false} AlnumsEmpty(s: string)
    ensures Alnums(s) == [] <==> forall i :: 0 <= i < |s| ==> !IsAlnum(s[i])
    decreases |s|
  {
    if s != [] {
      var init := s[..|s| - 1];
      AlnumsEmpty(init);
      assert forall i :: 0 <= i < |init| ==> init[i] == s[i];
    }
  }

  /** The cleaner's output is empty exactly when its input holds no letter or
      digit. */
  lemma CleanNameEmpty(name: string)
    ensures CleanName(name) == [] <==> forall i :: 0 <= i < |name| ==> !IsAlnum(name[i])
  {
    var clean := CleanName(name);
    CleanNameWellFormed(name);
    CleanNameKeepsAlnums(name);
    AlnumsEmpty(name);
    AlnumsEmpty(clean);
    if clean != [] {
      assert IsAlnum(clean[0]);
    }
  }

  /** validateName: builds the clean name by scanning the input once. */
  method ValidateName(name: string) returns (cleanName: string)
    ensures cleanName == CleanName(name)
    ensures WellFormedName(cleanName)
    ensures Alnums(cleanName) == Alnums(name) && |cleanName| <= |name|
  {
    cleanName := "";
    for i := 0 to |name|
      invariant cleanName == CleanName(name[..i])
    {
      var ch := name[i];
      assert name[..i + 1][..i] == name[..i];
      if IsAlnum(ch) || (cleanName != [] && ch == ' ' && cleanName[|cleanName| - 1] != ' ') {
        cleanName := cleanName + [ch];
      }
    }
    assert name[..|name|] == name;
    CleanNameWellFormed(name);
    CleanNameKeepsAlnums(name);
  }

  /** The check readNodeNames applies to each name line: the cleaned name, or
      an error when cleaning leaves nothing. */
  method ReadNodeName(line: string) returns (r: Result<string>)
    ensures r.Ok? <==> exists i :: 0 <= i < |line| && IsAlnum(line[i])
    ensures r.Ok? ==> r.value == CleanName(line) && r.value != [] && IsAlnum(r.value[0])
    ensures r.Err? ==> r.error == InvalidArgument
  {
    var cleanName := ValidateName(line);
    CleanNameEmpty(line);
    if cleanName == [] {
      r := Err(InvalidArgument);
    } else {
      r := Ok(cleanName);
    }
  }

  /** validateNodes: the node count must be a positive even number, so that
      the two sides of the bipartite graph have the same, positive size. */
  function ValidateNodes(nodes: int): (r: Outcome)
    ensures r.Pass? <==> nodes >= 2 && nodes == 2 * (nodes / 2)
    ensures r.Fail? ==> r.error == InvalidArgument
  {
    if nodes < 2 || nodes % 2 != 0 then Fail(InvalidArgument) else Pass
  }

  /** validateEdges: there must be at least one edge. */
  function ValidateEdges(edges: int): (r: Outcome)
    ensures r.Pass? <==> edges > 0
    ensures r.Fail? ==> r.error == InvalidArgument
  {
    if edges < 1 then Fail(InvalidArgument) else Pass
  }
}
