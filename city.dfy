/**
 * City-name derivation (`parseCity`): the part of the file name between its
 * last `-` and its last `.`, as in `prices-Moscow.xls`.
 */
module CityName {

  /** `strings.LastIndex` for a one-character separator: the last position of `c` in `s`, or -1. */
  function LastIndex(s: string, c: char): (r: int)
    ensures -1 <= r < |s|
    ensures r >= 0 ==> s[r] == c
    ensures forall j :: r < j < |s| ==> s[j] != c
  {
    if s == [] then -1
    else if s[|s| - 1] == c then |s| - 1
    else LastIndex(s[..|s| - 1], c)
  }

  /**
   * `parseCity`: `file[from + 1 .. to]` where `from` is the last `-` and `to`
   * the last `.`, when `from >= 0` and `to > from`; "" otherwise (main treats
   * "" as a fatal configuration error). The result never holds a `-`.
   */
  function ParseCity(file: string): (city: string)
    ensures '-' !in city
    ensures city != "" ==>
              0 <= LastIndex(file, '-') < LastIndex(file, '.') &&
              city == file[LastIndex(file, '-') + 1 .. LastIndex(file, '.')]
    ensures LastIndex(file, '-') < 0 || LastIndex(file, '.') <= LastIndex(file, '-') ==> city == ""
  {
    var from := LastIndex(file, '-');
    var to := LastIndex(file, '.');
    if from >= 0 && to > from then
      file[from + 1 .. to]
    else ""
  }

  /**
   * The inverse direction: a file named `prefix-city.ext`, where the city has
   * no `-` and the extension has neither `-` nor `.`, yields exactly `city`.
   */
  lemma ParseCityOfFileName(prefix: string, city: string, ext: string)
    requires '-' !in city && '-' !in ext && '.' !in ext
    ensures ParseCity(prefix + "-" + city + "." + ext) == city
  {
    var file := prefix + "-" + city + "." + ext;
    var dash := |prefix|;
    var dot := |prefix| + 1 + |city|;
    assert file[dash] == '-' && file[dot] == '.';
    assert forall j :: dash < j < |file| ==> file[j] != '-' by {
      forall j | dash < j < |file| ensures file[j] != '-' {
        if j < dot {
          assert file[j] == city[j - dash - 1];
        } else if j > dot {
          assert file[j] == ext[j - dot - 1];
        }
      }
    }
    assert forall j :: dot < j < |file| ==> file[j] != '.' by {
      forall j | dot < j < |file| ensures file[j] != '.' {
        assert file[j] == ext[j - dot - 1];
      }
    }
    LastIndexIsLast(file, '-', dash);
    LastIndexIsLast(file, '.', dot);
    assert file[dash + 1 .. dot] == city;
  }

  /** A position holding `c` with no `c` after it is what `LastIndex` returns. */
  lemma LastIndexIsLast(s: string, c: char, p: nat)
    requires p < |s| && s[p] == c
    requires forall j :: p < j < |s| ==> s[j] != c
    ensures LastIndex(s, c) == p
  {
  }

  /** A file name without a `-` never yields a city. */
  lemma NoDashNoCity(file: string)
    requires '-' !in file
    ensures ParseCity(file) == ""
  {
    if LastIndex(file, '-') >= 0 {
      assert file[LastIndex(file, '-')] in file;
    }
  }

  /** City names are compared as written: two file names differing only in letter case name two cities. */
  lemma CaseSensitiveCities()
    ensures ParseCity("prices-Rostov.xls") == "Rostov"
    ensures ParseCity("prices-rostov.xls") == "rostov"
  {
    assert "prices-Rostov.xls" == "prices" + "-" + "Rostov" + "." + "xls";
    ParseCityOfFileName("prices", "Rostov", "xls");
    assert "prices-rostov.xls" == "prices" + "-" + "rostov" + "." + "xls";
    ParseCityOfFileName("prices", "rostov", "xls");
  }
}
