/**
 * The record and string helpers of `OFUtils` (lib/omnifocus_jxa_common.js):
 * delimiter handling, status words and the delimited output records.
 * Every read of a scripting-bridge property that the helpers guard with
 * try/catch is a `Read` value, so each degraded path is an explicit case.
 */
module OFUtils {
  import opened Wrappers
  import opened OmniFocus

  /** ITEM_DELIMITER: separates the fields of one output record. */
  const ItemDelimiter: string := "|"

  /** RECORD_DELIMITER: three bullets (U+2022), separating records. */
  const RecordDelimiter: string := "\U{2022}\U{2022}\U{2022}"

  // ---------------------------------------------------------------------
  // Substrings

  /** `sub` occurs in `s` at position `i`. */
  predicate OccursAt(s: string, sub: string, i: int)
  {
    0 <= i && i + |sub| <= |s| && s[i..i + |sub|] == sub
  }

  /** `s.includes(sub)`. */
  predicate Includes(s: string, sub: string)
  {
    exists i | 0 <= i <= |s| - |sub| :: OccursAt(s, sub, i)
  }

  lemma OccursAtShift(s: string, sub: string, i: int)
    requires |s| > 0 && i >= 1
    ensures OccursAt(s, sub, i) <==> OccursAt(s[1..], sub, i - 1)
  {
    if i + |sub| <= |s| {
      assert s[1..][i - 1..i - 1 + |sub|] == s[i..i + |sub|];
    }
  }

  lemma IncludesShift(s: string, sub: string)
    requires |s| > 0
    ensures Includes(s, sub) <==> OccursAt(s, sub, 0) || Includes(s[1..], sub)
  {
    forall i | i >= 1
      ensures OccursAt(s, sub, i) <==> OccursAt(s[1..], sub, i - 1)
    {
      OccursAtShift(s, sub, i);
    }
    if Includes(s, sub) && !OccursAt(s, sub, 0) {
      var i :| 0 <= i <= |s| - |sub| && OccursAt(s, sub, i);
      assert OccursAt(s[1..], sub, i - 1);
    }
    if Includes(s[1..], sub) {
      var i :| 0 <= i <= |s[1..]| - |sub| && OccursAt(s[1..], sub, i);
      assert OccursAt(s, sub, i + 1);
    }
  }

  /** For a one-character pattern, occurring is membership. */
  lemma IncludesChar(s: string, c: char)
    ensures Includes(s, [c]) <==> c in s
  {
    if c in s {
      var i :| 0 <= i < |s| && s[i] == c;
      assert s[i..i + 1] == [c];
      assert OccursAt(s, [c], i);
    }
    if Includes(s, [c]) {
      var i :| 0 <= i <= |s| - 1 && OccursAt(s, [c], i);
      assert s[i] == s[i..i + 1][0];
    }
  }

  /**
   * The leftmost position at which `sub` occurs in `s`, or -1: where the
   * global replacement scan of `cleanString` finds its next match.
   */
  function FirstOccurrence(s: string, sub: string): (r: int)
    ensures r == -1 <==> !Includes(s, sub)
    ensures r != -1 ==> OccursAt(s, sub, r) && forall i | 0 <= i < r :: !OccursAt(s, sub, i)
    decreases |s|
  {
    if |s| < |sub| then -1
    else if s[..|sub|] == sub then
      assert OccursAt(s, sub, 0);
      0
    else
      IncludesShift(s, sub);
      var k := FirstOccurrence(s[1..], sub);
      assert forall i | 1 <= i :: OccursAt(s, sub, i) <==> OccursAt(s[1..], sub, i - 1) by {
        forall i | 1 <= i ensures OccursAt(s, sub, i) <==> OccursAt(s[1..], sub, i - 1) {
          OccursAtShift(s, sub, i);
        }
      }
      if k == -1 then -1 else k + 1
  }

  // ---------------------------------------------------------------------
  // Global replacement, splitting and joining

  /**
   * `s.replace(/pattern/g, replacement)` for a literal pattern: the leftmost
   * occurrence is replaced and the scan resumes after it, never looking at
   * inserted text again.
   */
  function ReplaceAll(s: string, pattern: string, replacement: string): string
    requires pattern != []
    decreases |s|
  {
    if |pattern| <= |s| && s[..|pattern|] == pattern then
      replacement + ReplaceAll(s[|pattern|..], pattern, replacement)
    else if |s| == 0 then
      []
    else
      [s[0]] + ReplaceAll(s[1..], pattern, replacement)
  }

  /** `s.split(sep)` for a non-empty separator. */
  function Split(s: string, sep: string): (parts: seq<string>)
    requires sep != []
    ensures |parts| >= 1
    decreases |s|
  {
    if |sep| <= |s| && s[..|sep|] == sep then
      [""] + Split(s[|sep|..], sep)
    else if |s| == 0 then
      [""]
    else
      var rest := Split(s[1..], sep);
      [[s[0]] + rest[0]] + rest[1..]
  }

  /** `s.split(sep)`, where an empty separator splits into single characters. */
  function SplitString(s: string, sep: string): seq<string>
  {
    if sep == [] then seq(|s|, i requires 0 <= i < |s| => [s[i]]) else Split(s, sep)
  }

  /**
   * `list.join(delimiter)`, the delimiter defaulting to ITEM_DELIMITER. The
   * result holds at least one delimiter between each two items, and
   * splitting it on a one-character delimiter that no item contains gives
   * the items back.
   */
  function JoinList(list: seq<string>, delimiter: string := ItemDelimiter): (r: string)
    ensures |list| >= 1 ==> |r| >= (|list| - 1) * |delimiter|
    ensures |list| >= 1 && |delimiter| == 1 && (forall k | 0 <= k < |list| :: delimiter[0] !in list[k])
            ==> Split(r, delimiter) == list
  {
    if |list| == 0 then ""
    else if |list| == 1 then
      SplitAbsent(list[0], delimiter);
      list[0]
    else
      var rest := JoinList(list[1..], delimiter);
      assert (|list| - 1) * |delimiter| == |delimiter| + (|list| - 2) * |delimiter|;
      SplitAtSeparator(list[0], delimiter, rest);
      assert [list[0]] + list[1..] == list;
      list[0] + delimiter + rest
  }

  /** A string without the (one-character) separator splits into itself alone. */
  lemma {:induction false} SplitAbsent(s: string, sep: string)
    ensures |sep| == 1 && sep[0] !in s ==> Split(s, sep) == [s]
    decreases |s|
  {
    if |sep| == 1 && sep[0] !in s && |s| > 0 {
      assert s[..1] != sep by { assert s[..1][0] == s[0]; }
      SplitAbsent(s[1..], sep);
      assert [s[0]] + s[1..] == s;
    }
  }

  /** Splitting at the first occurrence of a one-character separator. */
  lemma {:induction false} SplitAtSeparator(a: string, sep: string, b: string)
    ensures |sep| == 1 && sep[0] !in a ==> Split(a + sep + b, sep) == [a] + Split(b, sep)
    decreases |a|
  {
    if |sep| == 1 && sep[0] !in a {
      var s := a + sep + b;
      if |a| == 0 {
        assert s[..1] == sep;
        assert s[1..] == b;
      } else {
        assert s[..1] != sep by { assert s[..1][0] == a[0]; }
        assert s[1..] == a[1..] + sep + b;
        SplitAtSeparator(a[1..], sep, b);
        assert [a[0]] + a[1..] == a;
      }
    }
  }

  lemma JoinListCons(c: char, rest: seq<string>, delimiter: string)
    requires |rest| >= 1
    ensures JoinList([[c] + rest[0]] + rest[1..], delimiter) == [c] + JoinList(rest, delimiter)
  {
    var list := [[c] + rest[0]] + rest[1..];
    assert list[1..] == rest[1..];
  }

  /** Splitting and joining is the same global replacement as the regular-expression form. */
  lemma {:induction false} SplitJoinIsReplaceAll(s: string, pattern: string, replacement: string)
    requires pattern != []
    ensures JoinList(Split(s, pattern), replacement) == ReplaceAll(s, pattern, replacement)
    decreases |s|
  {
    if |pattern| <= |s| && s[..|pattern|] == pattern {
      SplitJoinIsReplaceAll(s[|pattern|..], pattern, replacement);
      var rest := Split(s[|pattern|..], pattern);
      assert ([""] + rest)[1..] == rest;
    } else if |s| > 0 {
      SplitJoinIsReplaceAll(s[1..], pattern, replacement);
      JoinListCons(s[0], Split(s[1..], pattern), replacement);
    }
  }

  /** Replacing a pattern that does not occur changes nothing. */
  lemma {:induction false} ReplaceAbsent(s: string, pattern: string, replacement: string)
    requires pattern != [] && !Includes(s, pattern)
    ensures ReplaceAll(s, pattern, replacement) == s
    decreases |s|
  {
    if |s| > 0 {
      IncludesShift(s, pattern);
      assert !(|pattern| <= |s| && s[..|pattern|] == pattern) by {
        assert !OccursAt(s, pattern, 0);
      }
      ReplaceAbsent(s[1..], pattern, replacement);
      assert [s[0]] + s[1..] == s;
    }
  }

  lemma ReplaceAllSkip(s: string, pattern: string, replacement: string)
    requires pattern != [] && s != [] && !OccursAt(s, pattern, 0)
    ensures ReplaceAll(s, pattern, replacement) == [s[0]] + ReplaceAll(s[1..], pattern, replacement)
  {
  }

  lemma ReplaceAllHit(s: string, pattern: string, replacement: string)
    requires pattern != [] && OccursAt(s, pattern, 0)
    ensures ReplaceAll(s, pattern, replacement) == replacement + ReplaceAll(s[|pattern|..], pattern, replacement)
  {
  }

  /** Replacement runs untouched up to the leftmost occurrence. */
  lemma {:induction false} ReplaceAllAtFirst(s: string, pattern: string, replacement: string, j: nat)
    requires pattern != [] && OccursAt(s, pattern, j)
    requires forall i | 0 <= i < j :: !OccursAt(s, pattern, i)
    ensures ReplaceAll(s, pattern, replacement)
         == s[..j] + replacement + ReplaceAll(s[j + |pattern|..], pattern, replacement)
    decreases j
  {
    if j == 0 {
      ReplaceAllHit(s, pattern, replacement);
      assert s[..0] == [];
    } else {
      LeftmostShift(s, pattern, j);
      ReplaceAllAtFirst(s[1..], pattern, replacement, j - 1);
      ReplaceAllKeepsHead(s, pattern, replacement, j);
    }
  }

  /** Lifts the leftmost-occurrence equation from the tail of `s` to `s`. */
  lemma ReplaceAllKeepsHead(s: string, pattern: string, replacement: string, j: nat)
    requires pattern != [] && 0 < j && OccursAt(s, pattern, j) && !OccursAt(s, pattern, 0)
    requires ReplaceAll(s[1..], pattern, replacement)
          == s[1..][..j - 1] + replacement + ReplaceAll(s[1..][j - 1 + |pattern|..], pattern, replacement)
    ensures ReplaceAll(s, pattern, replacement)
         == s[..j] + replacement + ReplaceAll(s[j + |pattern|..], pattern, replacement)
  {
    ReplaceAllSkip(s, pattern, replacement);
    assert s[1..][j - 1 + |pattern|..] == s[j + |pattern|..];
    assert [s[0]] + s[1..][..j - 1] == s[..j];
    SeqAssoc([s[0]], s[1..][..j - 1], replacement, ReplaceAll(s[j + |pattern|..], pattern, replacement));
  }

  lemma SeqAssoc(a: string, b: string, c: string, d: string)
    ensures a + (b + c + d) == (a + b) + c + d
  {
  }

  /** A leftmost occurrence at j > 0 is a leftmost occurrence at j - 1 of the tail. */
  lemma LeftmostShift(s: string, pattern: string, j: nat)
    requires 0 < j && OccursAt(s, pattern, j)
    requires forall i | 0 <= i < j :: !OccursAt(s, pattern, i)
    ensures OccursAt(s[1..], pattern, j - 1)
    ensures forall i | 0 <= i < j - 1 :: !OccursAt(s[1..], pattern, i)
  {
    forall i | 0 <= i < j - 1 ensures !OccursAt(s[1..], pattern, i) {
      OccursAtShift(s, pattern, i + 1);
    }
    OccursAtShift(s, pattern, j);
  }

  /** Nothing before the leftmost occurrence contains the pattern. */
  lemma PrefixBeforeFirst(s: string, pattern: string, j: nat)
    requires pattern != [] && j <= |s|
    requires forall i | 0 <= i < j :: !OccursAt(s, pattern, i)
    ensures !Includes(s[..j], pattern)
  {
    forall i | 0 <= i <= j - |pattern| ensures !OccursAt(s[..j], pattern, i) {
      assert s[..j][i..i + |pattern|] == s[i..i + |pattern|];
      assert !OccursAt(s, pattern, i);
    }
  }

  /**
   * An occurrence cannot straddle a separating piece none of whose characters
   * is in the pattern.
   */
  lemma NoOccurrenceAround(a: string, m: string, b: string, pattern: string)
    requires pattern != [] && m != []
    requires forall k | 0 <= k < |m| :: m[k] !in pattern
    requires !Includes(a, pattern) && !Includes(b, pattern)
    ensures !Includes(a + m + b, pattern)
  {
    var s := a + m + b;
    forall i | 0 <= i <= |s| - |pattern| ensures !OccursAt(s, pattern, i) {
      if i + |pattern| <= |a| {
        assert s[i..i + |pattern|] == a[i..i + |pattern|];
        assert !OccursAt(a, pattern, i);
      } else if i >= |a| + |m| {
        var i' := i - |a| - |m|;
        assert s[i..i + |pattern|] == b[i'..i' + |pattern|];
        assert !OccursAt(b, pattern, i');
      } else {
        var k := if i < |a| then |a| else i;
        assert s[k] == m[k - |a|];
        assert m[k - |a|] !in pattern;
        assert s[i..i + |pattern|][k - i] == s[k];
      }
    }
  }

  /**
   * When the replacement is non-empty and shares no character with the
   * pattern, no occurrence of the pattern survives a global replacement.
   */
  lemma {:induction false} ReplaceRemovesAll(s: string, pattern: string, replacement: string)
    requires pattern != [] && replacement != []
    requires forall k | 0 <= k < |replacement| :: replacement[k] !in pattern
    ensures !Includes(ReplaceAll(s, pattern, replacement), pattern)
    decreases |s|
  {
    var j := FirstOccurrence(s, pattern);
    if j == -1 {
      ReplaceAbsent(s, pattern, replacement);
    } else {
      var tail := s[j + |pattern|..];
      ReplaceAllAtFirst(s, pattern, replacement, j);
      ReplaceRemovesAll(tail, pattern, replacement);
      PrefixBeforeFirst(s, pattern, j);
      NoOccurrenceAround(s[..j], replacement, ReplaceAll(tail, pattern, replacement), pattern);
    }
  }

  /** A global replacement introduces no character absent from the text and the replacement. */
  lemma {:induction false} ReplaceKeepsAbsentChar(s: string, pattern: string, replacement: string, c: char)
    requires pattern != [] && c !in s && c !in replacement
    ensures c !in ReplaceAll(s, pattern, replacement)
    decreases |s|
  {
    if |pattern| <= |s| && s[..|pattern|] == pattern {
      ReplaceKeepsAbsentChar(s[|pattern|..], pattern, replacement, c);
    } else if |s| > 0 {
      ReplaceKeepsAbsentChar(s[1..], pattern, replacement, c);
    }
  }

  /**
   * replaceString: empty text gives the empty string; otherwise the text is
   * split on the pattern and joined with the replacement. For a non-empty
   * pattern this is the global replacement.
   */
  function ReplaceString(text: string, pattern: string, replacement: string): (r: string)
    ensures text == [] ==> r == []
    ensures pattern != [] ==> r == ReplaceAll(text, pattern, replacement)
  {
    if text == [] then ""
    else
      SplitStringJoin(text, pattern, replacement);
      JoinList(SplitString(text, pattern), replacement)
  }

  /** For a non-empty pattern, split-then-join is the global replacement. */
  lemma SplitStringJoin(text: string, pattern: string, replacement: string)
    ensures pattern != [] ==> JoinList(SplitString(text, pattern), replacement) == ReplaceAll(text, pattern, replacement)
  {
    if pattern != [] {
      SplitJoinIsReplaceAll(text, pattern, replacement);
    }
  }

  /** replaceString leaves text in which the pattern does not occur unchanged. */
  lemma ReplaceStringUnchanged(text: string, pattern: string, replacement: string)
    requires pattern != [] && !Includes(text, pattern)
    ensures ReplaceString(text, pattern, replacement) == text
  {
    ReplaceAbsent(text, pattern, replacement);
  }

  /**
   * replaceString removes every occurrence of a non-empty pattern when the
   * replacement is non-empty and has no character in common with it.
   */
  lemma ReplaceStringRemovesAll(text: string, pattern: string, replacement: string)
    requires pattern != [] && replacement != []
    requires forall k | 0 <= k < |replacement| :: replacement[k] !in pattern
    ensures !Includes(ReplaceString(text, pattern, replacement), pattern)
  {
    ReplaceRemovesAll(text, pattern, replacement);
  }

  /**
   * A replacement that does not contain the pattern can still leave an
   * occurrence behind: replacing "ab" by "b" in "aab" gives "ab".
   */
  lemma ReplaceStringCanLeaveOccurrence()
    ensures !Includes("b", "ab")
    ensures ReplaceString("aab", "ab", "b") == "ab"
    ensures Includes(ReplaceString("aab", "ab", "b"), "ab")
  {
    assert !OccursAt("b", "ab", 0);
    var s := "aab";
    assert s[..2] == ['a', 'a'];
    assert s[1..] == "ab";
    assert s[1..][..2] == "ab";
    assert s[1..][2..] == "";
    assert ReplaceAll("", "ab", "b") == "";
    assert ReplaceAll("ab", "ab", "b") == "b";
    assert ReplaceAll(s, "ab", "b") == "ab";
    assert OccursAt("ab", "ab", 0);
  }

  /** An empty pattern puts the replacement between every two characters. */
  lemma ReplaceStringEmptyPattern()
    ensures ReplaceString("abc", "", "-") == "a-b-c"
  {
    var parts := SplitString("abc", "");
    assert parts == ["a", "b", "c"];
    assert parts[1..] == ["b", "c"];
    assert parts[1..][1..] == ["c"];
  }

  // ---------------------------------------------------------------------
  // cleanString

  /**
   * cleanString: the empty string for empty input; otherwise every item
   * delimiter, then every record delimiter, becomes a space.
   */
  function CleanString(s: string): (r: string)
    ensures s == [] ==> r == []
    ensures '|' !in r
    ensures !Includes(r, RecordDelimiter)
    ensures '|' !in s && !Includes(s, RecordDelimiter) ==> r == s
  {
    if |s| == 0 then ""
    else
      var noItems := ReplaceAll(s, ItemDelimiter, " ");
      ReplaceRemovesAll(s, ItemDelimiter, " ");
      IncludesChar(noItems, '|');
      ReplaceKeepsAbsentChar(noItems, RecordDelimiter, " ", '|');
      ReplaceRemovesAll(noItems, RecordDelimiter, " ");
      CleanAbsent(s);
      ReplaceAll(noItems, RecordDelimiter, " ")
  }

  /** Text that holds neither delimiter passes through both replacements unchanged. */
  lemma CleanAbsent(s: string)
    ensures '|' !in s && !Includes(s, RecordDelimiter)
            ==> ReplaceAll(ReplaceAll(s, ItemDelimiter, " "), RecordDelimiter, " ") == s
  {
    IncludesChar(s, '|');
    if '|' !in s && !Includes(s, RecordDelimiter) {
      ReplaceAbsent(s, ItemDelimiter, " ");
      ReplaceAbsent(s, RecordDelimiter, " ");
    }
  }

  /** Cleaning twice is cleaning once. */
  lemma CleanStringIdempotent(s: string)
    ensures CleanString(CleanString(s)) == CleanString(s)
  {
  }

  // ---------------------------------------------------------------------
  // safeGet and the status words

  /** safeGet: the value read, or the fallback when it is null, undefined or the read threw. */
  function SafeGet<T>(read: Read<Option<T>>, fallback: T): (r: T)
    ensures read.Got? && read.value.Some? ==> r == read.value.value
    ensures read.Threw? || read.value.None? ==> r == fallback
  {
    match read
    case Got(Some(v)) => v
    case _ => fallback
  }

  /** The status words the helpers emit. */
  datatype Status = Completed | Flagged | OnHold | Active

  /** The word a status is written as. */
  function StatusWord(s: Status): (w: string)
    ensures w != [] && '|' !in w
  {
    match s
    case Completed => "completed"
    case Flagged => "flagged"
    case OnHold => "on-hold"
    case Active => "active"
  }

  /** Different statuses are written differently. */
  lemma StatusWordInjective(s: Status, t: Status)
    ensures StatusWord(s) == StatusWord(t) ==> s == t
  {
  }

  /** The containing project could be read and its status read as "on hold". */
  predicate InOnHoldProject(project: Read<Option<ProjectRecord>>)
  {
    project.Got? && project.value.Some? && project.value.value.status == Got(ProjectStatus.OnHold)
  }

  /**
   * getTaskStatus: completed, then flagged, then on hold when the containing
   * project is on hold, else active; a read that throws yields active.
   */
  function GetTaskStatus(t: TaskRecord): (r: Status)
    ensures r == Completed <==> t.completed == Got(true)
    ensures r == Flagged <==> t.completed == Got(false) && t.flagged == Got(true)
    ensures r == Status.OnHold <==> t.completed == Got(false) && t.flagged == Got(false) && InOnHoldProject(t.project)
    ensures t.completed.Threw? || (t.completed == Got(false) && t.flagged.Threw?) ==> r == Status.Active
  {
    match t.completed
    case Threw => Status.Active
    case Got(completed) =>
      if completed then Completed
      else
        match t.flagged
        case Threw => Status.Active
        case Got(flagged) =>
          if flagged then Flagged
          else if InOnHoldProject(t.project) then Status.OnHold
          else Status.Active
  }

  /**
   * getProjectStatus: completed whenever `completed()` is true, on hold only
   * for the status "on hold", active otherwise (dropped projects and failed
   * reads included).
   */
  function GetProjectStatus(p: ProjectRecord): (r: Status)
    ensures r != Flagged
    ensures r == Completed <==> p.completed == Got(true)
    ensures r == Status.OnHold <==> p.completed == Got(false) && p.status == Got(ProjectStatus.OnHold)
    ensures p.completed != Got(true) && p.status == Got(Dropped) ==> r == Status.Active
  {
    match p.completed
    case Threw => Status.Active
    case Got(completed) =>
      if completed then Completed
      else
        if p.status == Got(ProjectStatus.OnHold) then Status.OnHold else Status.Active
  }

  // ---------------------------------------------------------------------
  // Output records

  /**
   * taskToString: name, project name, note, id and status joined by the item
   * delimiter; the empty string when the name or the id cannot be read.
   * Name, project name and note are cleaned, so when the id holds no item
   * delimiter the record splits back into exactly these five fields.
   */
  function TaskToString(t: TaskRecord): (r: string)
    ensures r == [] <==> t.name.Threw? || t.id.Threw?
    ensures t.name.Got? && t.id.Got? && '|' !in t.id.value ==>
      Split(r, ItemDelimiter) == [CleanString(t.name.value), CleanString(t.projectName),
                                  CleanString(SafeGet(t.note, "")), t.id.value,
                                  StatusWord(GetTaskStatus(t))]
  {
    match (t.name, t.id)
    case (Got(name), Got(id)) =>
      JoinList([CleanString(name), CleanString(t.projectName), CleanString(SafeGet(t.note, "")),
                id, StatusWord(GetTaskStatus(t))], ItemDelimiter)
    case _ => ""
  }

  /**
   * projectToString: name, note, id and status joined by the item delimiter;
   * the empty string when the name or the id cannot be read. When the id
   * holds no item delimiter the record splits back into these four fields.
   */
  function ProjectToString(p: ProjectRecord): (r: string)
    ensures r == [] <==> p.name.Threw? || p.id.Threw?
    ensures p.name.Got? && p.id.Got? && '|' !in p.id.value ==>
      Split(r, ItemDelimiter) == [CleanString(p.name.value), CleanString(SafeGet(p.note, "")),
                                  p.id.value, StatusWord(GetProjectStatus(p))]
  {
    match (p.name, p.id)
    case (Got(name), Got(id)) =>
      JoinList([CleanString(name), CleanString(SafeGet(p.note, "")), id, StatusWord(GetProjectStatus(p))],
               ItemDelimiter)
    case _ => ""
  }
}
