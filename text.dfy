/** The string handling behind the ledger's searches: Python's `str.split(" ")`,
    the prefix and substring tests the SQL `LIKE` patterns stand for, and the
    one- or two-word name match of db_interface.py. */
module Text {

  /** Python's `s.split(" ")`: cut at every single space; two spaces in a row
      give an empty word, and the empty string gives one empty word. */
  function Split(s: string): (words: seq<string>)
    ensures |words| >= 1
    ensures forall w :: w in words ==> ' ' !in w
  {
    if s == [] then [""]
    else
      var rest := Split(s[1..]);
      if s[0] == ' ' then [""] + rest
      else [[s[0]] + rest[0]] + rest[1..]
  }

  /** Python's `" ".join(words)`. */
  function Join(words: seq<string>): (s: string)
    requires |words| >= 1
    ensures |s| >= |words[0]| && s[..|words[0]|] == words[0]
    ensures |words| > 1 ==> |s| > |words[0]| && s[|words[0]|] == ' '
  {
    if |words| == 1 then words[0] else words[0] + " " + Join(words[1..])
  }

  /** Joining the words of a split gives the string back. */
  lemma {:induction false} JoinSplit(s: string)
    ensures Join(Split(s)) == s
  {
    if s != [] {
      var rest := Split(s[1..]);
      JoinSplit(s[1..]);
      if s[0] == ' ' {
        assert ([""] + rest)[1..] == rest;
      } else {
        assert Split(s)[1..] == rest[1..];
      }
    }
  }

  lemma {:induction false} SplitNoSpacePrefix(a: string, t: string)
    requires ' ' !in a
    ensures Split(a + t) == [a + Split(t)[0]] + Split(t)[1..]
  {
    if a != [] {
      assert (a + t)[1..] == a[1..] + t;
      SplitNoSpacePrefix(a[1..], t);
      assert [a[0]] + (a[1..] + Split(t)[0]) == a + Split(t)[0];
    } else {
      assert a + t == t && a + Split(t)[0] == Split(t)[0];
      assert Split(t) == [Split(t)[0]] + Split(t)[1..];
    }
  }

  /** Splitting words that hold no space, joined by single spaces, gives the
      words back. */
  lemma {:induction false} SplitJoin(words: seq<string>)
    requires |words| >= 1
    requires forall w :: w in words ==> ' ' !in w
    ensures Split(Join(words)) == words
  {
    if |words| == 1 {
      SplitNoSpacePrefix(words[0], "");
      assert words[0] + "" == words[0];
    } else {
      var tail := Join(words[1..]);
      SplitJoin(words[1..]);
      assert words[0] + " " + tail == words[0] + (" " + tail);
      SplitNoSpacePrefix(words[0], " " + tail);
      assert (" " + tail)[1..] == tail;
      assert Split(" " + tail) == [""] + words[1..];
      assert words[0] + "" == words[0];
      assert ([""] + words[1..])[1..] == words[1..];
      assert [words[0]] + words[1..] == words;
    }
  }

  /** SQL `column LIKE 'p%'`, taken literally (no wildcards in `p`, case-sensitive). */
  predicate StartsWith(s: string, p: string) {
    p <= s
  }

  /** SQL `column LIKE '%p%'`, taken literally. */
  predicate Contains(s: string, p: string) {
    exists i :: 0 <= i <= |s| && p <= s[i..]
  }

  /** The name filter of `search_authorizations` and `search_authorized_persons`:
      one word is a prefix of the first name or of the surname; two words are
      prefixes of the first name and the surname in either order; any other
      number of words matches nobody. */
  predicate MatchesWords(words: seq<string>, firstname: string, surname: string) {
    if |words| == 1 then
      StartsWith(firstname, words[0]) || StartsWith(surname, words[0])
    else if |words| == 2 then
      || (StartsWith(firstname, words[0]) && StartsWith(surname, words[1]))
      || (StartsWith(firstname, words[1]) && StartsWith(surname, words[0]))
    else false
  }

  /** The name filter of `search_prioritized_authorizations_for_room`: the same,
      except that more than two words filter nothing out. */
  predicate MatchesWordsOrAll(words: seq<string>, firstname: string, surname: string) {
    |words| > 2 || MatchesWords(words, firstname, surname)
  }

  /** A search for a full name, written either way round, finds that person. */
  lemma FullNameSearchFinds(firstname: string, surname: string)
    requires ' ' !in firstname && ' ' !in surname
    ensures MatchesWords(Split(firstname + " " + surname), firstname, surname)
    ensures MatchesWords(Split(surname + " " + firstname), firstname, surname)
  {
    assert Join([firstname, surname]) == firstname + " " + surname;
    assert Join([surname, firstname]) == surname + " " + firstname;
    SplitJoin([firstname, surname]);
    SplitJoin([surname, firstname]);
  }

  /** An expression with three or more words finds nobody, whatever the names. */
  lemma ThreeWordsFindNobody(expression: string, firstname: string, surname: string)
    requires |Split(expression)| > 2
    ensures !MatchesWords(Split(expression), firstname, surname)
    ensures MatchesWordsOrAll(Split(expression), firstname, surname)
  {
  }

  /** The order of names in SQL `ORDER BY`: code point by code point. */
  function StringKey(s: string): (k: seq<int>)
    ensures |k| == |s|
    ensures forall i :: 0 <= i < |s| ==> k[i] == s[i] as int
  {
    seq(|s|, i requires 0 <= i < |s| => s[i] as int)
  }
}
