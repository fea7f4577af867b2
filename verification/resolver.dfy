/** Resolving a display name scraped from the poll to a roster key: a
    case-insensitive full-name match first, then a first-name match, else a
    sentinel id that carries the original name. It never fails. */
module Resolver {
  import opened Wrappers
  import opened Seqs
  import opened TimeGrid

  /** One roster entry, in the roster's iteration order: its key and display name. */
  datatype RosterEntry = RosterEntry(key: PersonId, name: string)

  type Roster = seq<RosterEntry>

  function LowerChar(c: char): char
  {
    if 'A' <= c <= 'Z' then (c as int + 32) as char else c
  }

  /** `str.lower()` on ASCII letters. */
  function Lower(s: string): (r: string)
    ensures |r| == |s|
    ensures forall i :: 0 <= i < |s| ==> r[i] == LowerChar(s[i])
  {
    if |s| == 0 then "" else [LowerChar(s[0])] + Lower(s[1..])
  }

  /** `s.split(' ')[0]`: everything before the first space, or all of `s` if it has none. */
  function FirstToken(s: string): (r: string)
    ensures |r| <= |s| && r == s[..|r|]
    ensures ' ' !in r
    ensures |r| < |s| ==> s[|r|] == ' '
  {
    if |s| == 0 || s[0] == ' ' then ""
    else
      var rest := FirstToken(s[1..]);
      assert s[..|rest| + 1] == [s[0]] + rest;
      [s[0]] + rest
  }

  /** The roster entry's full name equals the query, ignoring case. */
  function FullNameMatches(query: string): RosterEntry -> bool
  {
    (e: RosterEntry) => Lower(e.name) == Lower(query)
  }

  /** The roster entry's lowercased first name equals the lowercased query's first token. */
  function FirstNameMatches(query: string): RosterEntry -> bool
  {
    (e: RosterEntry) => Lower(FirstToken(e.name)) == FirstToken(Lower(query))
  }

  const UnknownPrefix: string := "UnknownPerson<"

  /** The id given to a name nobody in the roster has: `UnknownPerson<` + name + `>`. */
  function UnknownPerson(name: string): PersonId
  {
    UnknownPrefix + name + ">"
  }

  /** getPersonFromName: the first roster key whose full name matches, else the first whose
      first name matches, else the unknown-person sentinel for the original, un-lowercased name. */
  function GetPersonFromName(roster: Roster, name: string): (r: PersonId)
    ensures forall j ::
      (0 <= j < |roster| && FullNameMatches(name)(roster[j]) && (forall k :: 0 <= k < j ==> !FullNameMatches(name)(roster[k])))
      ==> r == roster[j].key
    ensures (forall k :: 0 <= k < |roster| ==> !FullNameMatches(name)(roster[k])) ==>
      forall j ::
        (0 <= j < |roster| && FirstNameMatches(name)(roster[j]) && (forall k :: 0 <= k < j ==> !FirstNameMatches(name)(roster[k])))
        ==> r == roster[j].key
    ensures (forall k :: 0 <= k < |roster| ==> !FullNameMatches(name)(roster[k]) && !FirstNameMatches(name)(roster[k])) ==>
      r == UnknownPerson(name)
  {
    match FindFirst(roster, FullNameMatches(name))
    case Some(j) => roster[j].key
    case None =>
      match FindFirst(roster, FirstNameMatches(name))
      case Some(j) => roster[j].key
      case None => UnknownPerson(name)
  }

  /** Reads back the name inside an unknown-person sentinel. */
  function UnknownName(id: PersonId): Option<string>
  {
    if |id| >= |UnknownPrefix| + 1 && id[..|UnknownPrefix|] == UnknownPrefix && id[|id| - 1] == '>'
    then Some(id[|UnknownPrefix|..|id| - 1])
    else None
  }

  /** The sentinel carries the original name unchanged. */
  lemma UnknownPersonRoundTrip(name: string)
    ensures UnknownName(UnknownPerson(name)) == Some(name)
  {
    var id := UnknownPerson(name);
    assert id[..|UnknownPrefix|] == UnknownPrefix;
    assert id[|UnknownPrefix|..|id| - 1] == name;
  }

  /** Lowercasing never creates or removes a space, so it commutes with taking the first token. */
  lemma {:induction false} LowerFirstTokenCommute(s: string)
    ensures Lower(FirstToken(s)) == FirstToken(Lower(s))
  {
    if |s| > 0 && s[0] != ' ' {
      LowerFirstTokenCommute(s[1..]);
      assert Lower(s)[1..] == Lower(s[1..]);
      assert Lower([s[0]] + FirstToken(s[1..])) == [LowerChar(s[0])] + Lower(FirstToken(s[1..]));
    }
  }

  /** A full-name match is also a first-name match, which is why the full-name pass must run first. */
  lemma FullNameMatchIsFirstNameMatch(name: string, e: RosterEntry)
    requires FullNameMatches(name)(e)
    ensures FirstNameMatches(name)(e)
  {
    LowerFirstTokenCommute(e.name);
  }

  /** If no roster key looks like a sentinel, the result is a roster key exactly when some
      entry matches by full or first name, and the sentinel otherwise. */
  lemma ResolvedIffSomeEntryMatches(roster: Roster, name: string)
    requires forall k :: 0 <= k < |roster| ==> UnknownName(roster[k].key).None?
    ensures (exists j :: 0 <= j < |roster| && GetPersonFromName(roster, name) == roster[j].key) <==>
      (exists j :: 0 <= j < |roster| && (FullNameMatches(name)(roster[j]) || FirstNameMatches(name)(roster[j])))
  {
    var r := GetPersonFromName(roster, name);
    if !exists j :: 0 <= j < |roster| && (FullNameMatches(name)(roster[j]) || FirstNameMatches(name)(roster[j])) {
      assert r == UnknownPerson(name);
      UnknownPersonRoundTrip(name);
    } else {
      var f := FindFirst(roster, FullNameMatches(name));
      if f.Some? {
        assert r == roster[f.value].key;
      } else {
        var h := FindFirst(roster, FirstNameMatches(name));
        assert h.Some?;
        assert r == roster[h.value].key;
      }
    }
  }
}
