/** When a session is written back: on change, or after every request. */
module Persistence {
  import opened Wrappers
  import opened JavaLang

  datatype PersistenceStrategy = OnChange | Always {
    /** The constant's name. */
    function Name(): string {
      match this
      case OnChange => "ON_CHANGE"
      case Always => "ALWAYS"
    }
  }

  /** values(), in declaration order. */
  const Values: seq<PersistenceStrategy> := [OnChange, Always]

  /**
   * Character.toUpperCase, for ASCII and the two other characters whose upper case
   * is an ASCII letter: dotless i and long s.
   */
  function ToUpper(c: char): char {
    if 'a' <= c <= 'z' then (c as int - 32) as char
    else if c == 'ı' then 'I'
    else if c == 'ſ' then 'S'
    else c
  }

  /**
   * Character.toLowerCase, for ASCII and the two other characters whose lower case
   * is an ASCII letter: capital I with dot above and the Kelvin sign.
   */
  function ToLower(c: char): char {
    if 'A' <= c <= 'Z' then (c as int + 32) as char
    else if c == 'İ' then 'i'
    else if c == 'K' then 'k'
    else c
  }

  /** String.regionMatches with ignoreCase, one character pair. */
  predicate CharEqualsIgnoreCase(a: char, b: char) {
    a == b || ToUpper(a) == ToUpper(b) || ToLower(ToUpper(a)) == ToLower(ToUpper(b))
  }

  /** String.equalsIgnoreCase: false for null, else equal lengths and pairwise equal characters. */
  predicate EqualsIgnoreCase(s: string, t: Option<string>) {
    t.Some? && |s| == |t.value| && forall i | 0 <= i < |s| :: CharEqualsIgnoreCase(s[i], t.value[i])
  }

  function FindFirst(ps: seq<PersistenceStrategy>, name: Option<string>): (r: Option<PersistenceStrategy>)
    ensures r.Some? ==> r.value in ps && EqualsIgnoreCase(r.value.Name(), name)
    ensures r.None? ==> forall i | 0 <= i < |ps| :: !EqualsIgnoreCase(ps[i].Name(), name)
    ensures r.Some? ==> exists i | 0 <= i < |ps| ::
      (ps[i] == r.value && forall j | 0 <= j < i :: !EqualsIgnoreCase(ps[j].Name(), name))
  {
    if ps == [] then None
    else if EqualsIgnoreCase(ps[0].Name(), name) then Some(ps[0])
    else FindFirst(ps[1..], name)
  }

  /** fromName: the first constant whose name equals name ignoring case, else IllegalArgumentException. */
  function FromName(name: Option<string>): (r: Result<PersistenceStrategy, Exception>)
    ensures r == Success(OnChange) <==> EqualsIgnoreCase("ON_CHANGE", name)
    ensures r == Success(Always) <==> EqualsIgnoreCase("ALWAYS", name)
    ensures r.Failure? <==> !EqualsIgnoreCase("ON_CHANGE", name) && !EqualsIgnoreCase("ALWAYS", name)
    ensures r.Failure? ==> r.error == IllegalArgument
  {
    var found := FindFirst(Values, name);
    assert Values[0].Name() == "ON_CHANGE" && Values[1].Name() == "ALWAYS";
    if found.Some? then Success(found.value) else Failure(IllegalArgument)
  }

  /** Every constant is found by its own name. */
  lemma FromOwnName(p: PersistenceStrategy)
    ensures FromName(Some(p.Name())) == Success(p)
  {
    assert EqualsIgnoreCase(p.Name(), Some(p.Name()));
  }

  lemma NullNameIsRejected()
    ensures FromName(None) == Failure(IllegalArgument)
  {
  }

  /** Case does not matter: lower case, mixed case and a long s all select ALWAYS. */
  lemma CaseInsensitiveNames()
    ensures FromName(Some("always")) == Success(Always)
    ensures FromName(Some("On_Change")) == Success(OnChange)
    ensures FromName(Some("alwayſ")) == Success(Always)
  {
    assert EqualsIgnoreCase("ALWAYS", Some("always"));
    assert EqualsIgnoreCase("ON_CHANGE", Some("On_Change"));
    assert EqualsIgnoreCase("ALWAYS", Some("alwayſ"));
  }

  /** A name that is not a constant's, such as "NEVER" or "ONCHANGE", is rejected. */
  lemma OtherNamesAreRejected()
    ensures FromName(Some("NEVER")) == Failure(IllegalArgument)
    ensures FromName(Some("ONCHANGE")) == Failure(IllegalArgument)
  {
    assert !CharEqualsIgnoreCase('A', 'N');
  }
}
