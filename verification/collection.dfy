/**
  The one piece of Data_Collection.py the cleaner depends on: the name under
  which a fetched page is saved, which the cleaner later splits to recover
  the team.
 */
module Collection {
  import opened Text

  /** The name the collector saves a team's season page under, without the directory: "TS_<team>_<year>.html". */
  function PageFileName(team: string, year: int): (name: string)
    ensures |name| >= |team| + 10
    ensures name[..3] == "TS_" && name[|name| - 5..] == ".html"
    ensures name[3..3 + |team|] == team && name[3 + |team|] == '_'
  {
    "TS_" + team + "_" + IntToString(year) + ".html"
  }

  /** The file name is the three underscore-separated pieces "TS", the team, and "<year>.html". */
  lemma PageFileNamePieces(team: string, year: int)
    ensures PageFileName(team, year) == Join(["TS", team, IntToString(year) + ".html"], '_')
  {
    var last := IntToString(year) + ".html";
    var parts := ["TS", team, last];
    assert parts[1..] == [team, last] && parts[1..][1..] == [last];
    assert Join([last], '_') == last;
    assert Join([team, last], '_') == team + "_" + last;
    assert Join(parts, '_') == "TS" + "_" + Join([team, last], '_');
  }
}
