/** The list screen's search box: a case-insensitive substring match on titles. */
module TaskSearch {
  import opened Tasks
  import opened Sequences

  /** Lower-casing of one character, over the ASCII letters. */
  function LowerChar(c: char): (r: char)
    ensures !('A' <= r <= 'Z')
    ensures r == c || ('A' <= c <= 'Z' && r as int == c as int + 32)
  {
    if 'A' <= c <= 'Z' then (c as int + 32) as char else c
  }

  /** Lower-casing of a string, character by character. */
  function Lower(s: string): (r: string)
    ensures |r| == |s|
  {
    seq(|s|, i requires 0 <= i < |s| => LowerChar(s[i]))
  }

  /** `Lower` leaves no upper-case ASCII letter and changes no other character. */
  lemma LowerSpec(s: string)
    ensures forall i :: 0 <= i < |s| ==> !('A' <= Lower(s)[i] <= 'Z')
    ensures forall i :: 0 <= i < |s| && !('A' <= s[i] <= 'Z') ==> Lower(s)[i] == s[i]
  {
  }

  /** Lower-casing an already lower-cased string changes nothing. */
  lemma LowerIdempotent(s: string)
    ensures Lower(Lower(s)) == Lower(s)
  {
  }

  /** `q` occurs in `s` as a contiguous block starting at index `i`. */
  predicate OccursAt(s: string, q: string, i: int) {
    0 <= i && i + |q| <= |s| && s[i..i + |q|] == q
  }

  /** String `includes`: `q` occurs in `s` at some index. */
  predicate Includes(s: string, q: string): (b: bool)
    ensures b ==> |q| <= |s|
    ensures q == [] ==> b
  {
    assert q == [] ==> OccursAt(s, q, 0);
    exists i | 0 <= i <= |s| - |q| :: OccursAt(s, q, i)
  }

  /** The empty query occurs in every string. */
  lemma IncludesEmpty(s: string)
    ensures Includes(s, "")
  {
    assert OccursAt(s, "", 0);
  }

  /** A query with a character the string lacks does not occur in it. */
  lemma MissingCharExcludes(s: string, q: string, k: int)
    requires 0 <= k < |q| && q[k] !in s
    ensures !Includes(s, q)
  {
    forall i
      ensures !OccursAt(s, q, i)
    {
      if 0 <= i && i + |q| <= |s| {
        assert s[i..i + |q|][k] == s[i + k];
      }
    }
  }

  /** The search callback for `query`. */
  function MatchesQuery(query: string): (matches: Task -> bool)
    ensures forall t :: matches(t) <==> Includes(Lower(t.title), Lower(query))
  {
    (t: Task) => Includes(Lower(t.title), Lower(query))
  }

  /** The tasks shown for the text in the search box: those whose lower-cased
      title contains the lower-cased query, in list order. The three clauses
      determine the result (`Sequences.FilterUnique`). */
  function Search(tasks: seq<Task>, query: string): (r: seq<Task>)
    ensures IsSubsequence(r, tasks)
    ensures forall t :: t in r <==> t in tasks && Includes(Lower(t.title), Lower(query))
    ensures |r| == Count(tasks, MatchesQuery(query))
  {
    Filter(tasks, MatchesQuery(query))
  }

  /** An empty search box shows every task. */
  lemma SearchEmptyShowsAll(tasks: seq<Task>)
    ensures Search(tasks, "") == tasks
  {
    forall t | t in tasks
      ensures MatchesQuery("")(t)
    {
      IncludesEmpty(Lower(t.title));
    }
    FilterAllPass(tasks, MatchesQuery(""));
  }

  /** Queries that differ only in the case of ASCII letters show the same tasks. */
  lemma SearchIgnoresCase(tasks: seq<Task>, q1: string, q2: string)
    requires Lower(q1) == Lower(q2)
    ensures Search(tasks, q1) == Search(tasks, q2)
  {
    FilterAgree(tasks, MatchesQuery(q1), MatchesQuery(q2));
  }

  /** Lower-casing keeps prefixes. */
  lemma LowerPrefix(q: string, s: string)
    requires q <= s
    ensures Lower(q) <= Lower(s)
  {
  }

  /** A lower-case letter absent from `s` in both cases is absent from `Lower(s)`. */
  lemma LowerAvoids(s: string, c: char)
    requires 'a' <= c <= 'z'
    requires c !in s && (c as int - 32) as char !in s
    ensures c !in Lower(s)
  {
    forall i | 0 <= i < |s|
      ensures Lower(s)[i] != c
    {
      assert s[i] in s;
    }
  }

  /** A title that starts with the query matches it. */
  lemma PrefixMatches(title: string, query: string)
    requires query <= title
    ensures Includes(Lower(title), Lower(query))
  {
    LowerPrefix(query, title);
    assert OccursAt(Lower(title), Lower(query), 0);
  }

  /** A title with no letter n in either case does not match "Learn". */
  lemma NoLetterNMissesLearn(title: string)
    requires 'n' !in title && 'N' !in title
    ensures !Includes(Lower(title), Lower("Learn"))
  {
    assert Lower("Learn")[4] == 'n';
    LowerAvoids(title, 'n');
    MissingCharExcludes(Lower(title), Lower("Learn"), 4);
  }

  /** Filtering six tasks of which the 3rd, 4th and 6th pass. */
  lemma FilterSixKeeps346(s: seq<Task>, p: Task -> bool)
    requires |s| == 6
    requires !p(s[0]) && !p(s[1]) && p(s[2]) && p(s[3]) && !p(s[4]) && p(s[5])
    ensures Filter(s, p) == [s[2], s[3], s[5]]
  {
    assert Filter(s[6..], p) == [];
    assert Filter(s[5..], p) == [s[5]];
    assert Filter(s[4..], p) == [s[5]];
    assert Filter(s[3..], p) == [s[3], s[5]];
    assert Filter(s[2..], p) == [s[2], s[3], s[5]];
    assert Filter(s[1..], p) == [s[2], s[3], s[5]];
  }

  /** The seed tasks the query "Learn" does not match: the 1st, 2nd and 5th. */
  lemma SeedLearnMisses(p: Task -> bool)
    requires p == MatchesQuery("Learn")
    ensures !p(Task(1, "To check email"))
    ensures !p(Task(2, "UI task web page"))
    ensures !p(Task(5, "Medical App UI"))
  {
    assert !p(Task(1, "To check email")) by { NoLetterNMissesLearn("To check email"); }
    assert !p(Task(2, "UI task web page")) by { NoLetterNMissesLearn("UI task web page"); }
    assert !p(Task(5, "Medical App UI")) by { NoLetterNMissesLearn("Medical App UI"); }
  }

  /** The seed tasks the query "Learn" matches: the 3rd, 4th and 6th. */
  lemma SeedLearnHits(p: Task -> bool)
    requires p == MatchesQuery("Learn")
    ensures p(Task(3, "Learn javascript basic"))
    ensures p(Task(4, "Learn HTML Advance"))
    ensures p(Task(6, "Learn Java"))
  {
    PrefixMatches("Learn javascript basic", "Learn");
    PrefixMatches("Learn HTML Advance", "Learn");
    PrefixMatches("Learn Java", "Learn");
  }

  /** On the seed list, searching "Learn" shows exactly the three tasks whose
      titles start with "Learn", in list order. */
  lemma SearchLearnScenario()
    ensures Search(InitialTasks(), "Learn")
         == [Task(3, "Learn javascript basic"), Task(4, "Learn HTML Advance"), Task(6, "Learn Java")]
  {
    SeedLearnMisses(MatchesQuery("Learn"));
    SeedLearnHits(MatchesQuery("Learn"));
    FilterSixKeeps346(InitialTasks(), MatchesQuery("Learn"));
  }
}
