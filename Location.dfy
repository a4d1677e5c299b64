/**
 * The cascading country / state / city selector of the registration form.
 * The location table is an ordered association list because the order of
 * a JavaScript object's keys is the order the options are listed in.
 */
module Location {

  /** An ordered list of (key, value) entries, as a JavaScript object literal
      lists its properties. */
  type Entries<V> = seq<(string, V)>

  /** country -> state -> ordered list of cities */
  type Table = Entries<Entries<seq<string>>>

  /** `locationData` */
  const LocationData: Table := [
    ("USA", [
      ("California", ["Los Angeles", "San Francisco", "San Diego"]),
      ("New York", ["New York City", "Buffalo", "Rochester"]),
      ("Texas", ["Houston", "Austin", "Dallas"])]),
    ("India", [
      ("Maharashtra", ["Pune", "Mumbai", "Nagpur"]),
      ("Karnataka", ["Bangalore", "Mysore", "Hubli"]),
      ("Delhi", ["New Delhi", "North Delhi", "South Delhi"])]),
    ("UK", [
      ("England", ["London", "Manchester", "Liverpool"]),
      ("Scotland", ["Edinburgh", "Glasgow", "Aberdeen"])])
  ]

  /** `Object.keys(t)` (and the order of `for ... in`) for a table without
      integer-like keys, such as `locationData`: one key per entry, in
      insertion order. (JavaScript lists integer-like keys first, in numeric
      order; no table here has one.) */
  function Keys<V>(t: Entries<V>): (ks: seq<string>)
    ensures |ks| == |t|
  {
    if t == [] then [] else [t[0].0] + Keys(t[1..])
  }

  lemma {:induction false} KeysAt<V>(t: Entries<V>)
    ensures |Keys(t)| == |t|
    ensures forall i :: 0 <= i < |t| ==> Keys(t)[i] == t[i].0
  {
    if t != [] {
      KeysAt(t[1..]);
    }
  }

  /** `t[k]` for a key of `t`: the value of an entry with that key (the
      first one, which in a table without repeated keys is the only one). */
  function Lookup<V>(t: Entries<V>, k: string): (v: V)
    requires k in Keys(t)
    ensures (k, v) in t
  {
    if t[0].0 == k then t[0].1
    else
      assert Keys(t) == [t[0].0] + Keys(t[1..]);
      Lookup(t[1..], k)
  }

  /** No key occurs twice. */
  predicate DistinctKeys<V>(t: Entries<V>) {
    forall i, j :: 0 <= i < j < |t| ==> t[i].0 != t[j].0
  }

  /** A JavaScript object cannot hold a key twice; the table keeps to that on
      both levels, and every country and state lists something. */
  predicate WellFormed(t: Table) {
    DistinctKeys(t) &&
    forall i :: 0 <= i < |t| ==>
      DistinctKeys(t[i].1) && |t[i].1| > 0 &&
      (forall j :: 0 <= j < |t[i].1| ==> |t[i].1[j].1| > 0)
  }

  lemma LocationDataWellFormed()
    ensures WellFormed(LocationData)
  {
    var t := LocationData;
    assert t[0].0[0] != t[1].0[0] && |t[0].0| != |t[2].0| && t[1].0[0] != t[2].0[0];
    forall i | 0 <= i < |t| ensures DistinctKeys(t[i].1) {
      var s := t[i].1;
      assert forall j, k :: 0 <= j < k < |s| ==> s[j].0[0] != s[k].0[0];
    }
  }

  /** In a table without repeated keys, the entry found for a key is the
      only entry for it. */
  lemma {:induction false} LookupUnique<V>(t: Entries<V>, k: string, v: V)
    requires DistinctKeys(t)
    requires (k, v) in t
    ensures k in Keys(t) && Lookup(t, k) == v
  {
    KeysAt(t);
    var i :| 0 <= i < |t| && t[i] == (k, v);
    assert Keys(t)[i] == k;
    var w := Lookup(t, k);
    var j :| 0 <= j < |t| && t[j] == (k, w);
  }

  /** The choices of the positive end-to-end flow: India lists its states
      in table order, and Maharashtra's cities start with Pune. */
  lemma IndiaMaharashtraPune()
    ensures "India" in Keys(LocationData)
    ensures Keys(Lookup(LocationData, "India")) == ["Maharashtra", "Karnataka", "Delhi"]
    ensures "Maharashtra" in Keys(Lookup(LocationData, "India"))
    ensures Lookup(Lookup(LocationData, "India"), "Maharashtra") == ["Pune", "Mumbai", "Nagpur"]
  {
    LocationDataWellFormed();
    var india := LocationData[1].1;
    LookupUnique(LocationData, "India", india);
    assert DistinctKeys(india);
    LookupUnique(india, "Maharashtra", india[0].1);
  }

  /** One `<option>` of a select control. */
  datatype Choice = Choice(value: string, text: string)

  const StatePrompt := Choice("", "Select State")
  const CityPrompt := Choice("", "Select City")

  /** The options appended for a list of names: value and text are both the
      name, in list order. */
  function OptionsFor(names: seq<string>): (opts: seq<Choice>)
    ensures |opts| == |names|
  {
    if names == [] then [] else OptionsFor(names[..|names| - 1]) + [Choice(names[|names| - 1], names[|names| - 1])]
  }

  lemma {:induction false} OptionsAt(names: seq<string>)
    ensures |OptionsFor(names)| == |names|
    ensures forall i :: 0 <= i < |names| ==> OptionsFor(names)[i] == Choice(names[i], names[i])
  {
    if names != [] {
      var init := names[..|names| - 1];
      OptionsAt(init);
      assert forall i :: 0 <= i < |init| ==> names[i] == init[i];
    }
  }

  /** The values a select control can take, in option order. */
  function Values(opts: seq<Choice>): seq<string>
  {
    if opts == [] then [] else [opts[0].value] + Values(opts[1..])
  }

  lemma {:induction false} ValuesAt(opts: seq<Choice>)
    ensures |Values(opts)| == |opts|
    ensures forall i :: 0 <= i < |opts| ==> Values(opts)[i] == opts[i].value
  {
    if opts != [] {
      ValuesAt(opts[1..]);
    }
  }

  /** A country selection the handlers can look up: none, or a table key. */
  predicate KnownCountry(t: Table, country: string) {
    country == "" || country in Keys(t)
  }

  /** A (country, state) selection the handlers can look up. */
  predicate KnownState(t: Table, country: string, state: string) {
    country == "" || state == "" ||
    (country in Keys(t) && state in Keys(Lookup(t, country)))
  }

  /** The state options that belong to a country selection. */
  function StateList(t: Table, country: string): (opts: seq<Choice>)
    requires KnownCountry(t, country)
    ensures |opts| >= 1 && opts[0] == StatePrompt
  {
    [StatePrompt] + if country == "" then [] else OptionsFor(Keys(Lookup(t, country)))
  }

  /** The city options that belong to a (country, state) selection. */
  function CityList(t: Table, country: string, state: string): (opts: seq<Choice>)
    requires KnownState(t, country, state)
    ensures |opts| >= 1 && opts[0] == CityPrompt
  {
    [CityPrompt] + if country == "" || state == "" then []
                   else OptionsFor(Lookup(Lookup(t, country), state))
  }

  /** The three select controls, their option lists, their selected values
      and the `disabled` flags of the two dependent ones. */
  class LocationSelector {
    /** the `locationData` the handlers read */
    const table: Table
    var countryOptions: seq<Choice>
    var stateOptions: seq<Choice>
    var cityOptions: seq<Choice>
    var stateDisabled: bool
    var cityDisabled: bool
    var country: string
    var state: string
    var city: string

    /** Every country option, and so the selected country, can be looked
        up; and each dependent control lists exactly what the table holds
        for the selections above it. */
    ghost predicate Valid()
      reads this
    {
      CountriesKnown() && Cascades()
    }

    /** Every country option names a table key or is the placeholder, and
        the selected country is one of the options. */
    ghost predicate CountriesKnown()
      reads this`countryOptions, this`country
    {
      (forall i :: 0 <= i < |countryOptions| ==> KnownCountry(table, countryOptions[i].value)) &&
      country in Values(countryOptions)
    }

    /** The state list belongs to the selected country and the city list to
        the selected state; a dependent control is enabled exactly when the
        selections above it are made, and its selection is the placeholder
        or one of the names the table lists for them. */
    ghost predicate Cascades()
      reads this`country, this`state, this`city, this`stateOptions,
            this`cityOptions, this`stateDisabled, this`cityDisabled
    {
      KnownCountry(table, country) &&
      (state == "" || (country != "" && state in Keys(Lookup(table, country)))) &&
      stateOptions == StateList(table, country) &&
      stateDisabled == (country == "") &&
      (city == "" || (state != "" && city in Lookup(Lookup(table, country), state))) &&
      cityOptions == CityList(table, country, state) &&
      cityDisabled == (country == "" || state == "")
    }

    /** The page as first rendered, before `window.onload` runs: each control
        holds only its placeholder, nothing is selected and the dependent
        controls are disabled. */
    constructor ()
      ensures Valid() && table == LocationData
      ensures countryOptions == [Choice("", "Select Country")]
      ensures stateOptions == [StatePrompt] && cityOptions == [CityPrompt]
      ensures stateDisabled && cityDisabled
      ensures country == "" && state == "" && city == ""
    {
      table := LocationData;
      countryOptions := [Choice("", "Select Country")];
      stateOptions := [StatePrompt];
      cityOptions := [CityPrompt];
      stateDisabled := true;
      cityDisabled := true;
      country, state, city := "", "", "";
    }

    /** `window.onload`: appends one option per country, in table order. */
    method FillCountries()
      requires Valid()
      modifies this`countryOptions
      ensures Valid()
      ensures countryOptions == old(countryOptions) + OptionsFor(Keys(table))
    {
      var countries := Keys(table);
      var i := 0;
      while i < |countries|
        invariant 0 <= i <= |countries|
        invariant countryOptions == old(countryOptions) + OptionsFor(countries[..i])
      {
        assert countries[..i + 1][..i] == countries[..i];
        countryOptions := countryOptions + [Choice(countries[i], countries[i])];
        i := i + 1;
      }
      assert countries[..i] == countries;
      CountriesStayKnown(table, old(countryOptions), country);
    }

    /** `loadStates`: rebuilds the state list for the selected country and
        resets the city list, leaving both selections at their placeholders. */
    method LoadStates()
      requires KnownCountry(table, country)
      modifies this`stateOptions, this`cityOptions, this`stateDisabled,
               this`cityDisabled, this`state, this`city
      ensures stateOptions == [StatePrompt] +
        (if country == "" then [] else OptionsFor(Keys(Lookup(table, country))))
      ensures stateDisabled <==> country == ""
      ensures cityOptions == [CityPrompt] && cityDisabled
      ensures state == "" && city == ""
    {
      stateOptions := [StatePrompt];
      cityOptions := [CityPrompt];
      stateDisabled := true;
      cityDisabled := true;
      state, city := "", "";

      if country != "" {
        var states := Keys(Lookup(table, country));
        var i := 0;
        while i < |states|
          invariant 0 <= i <= |states|
          invariant stateOptions == [StatePrompt] + OptionsFor(states[..i])
          modifies this`stateOptions
        {
          assert states[..i + 1][..i] == states[..i];
          stateOptions := stateOptions + [Choice(states[i], states[i])];
          i := i + 1;
        }
        assert states[..i] == states;
        stateDisabled := false;
      }
    }

    /** `loadCities`: rebuilds the city list for the selected country and
        state, leaving the city selection at its placeholder. */
    method LoadCities()
      requires KnownState(table, country, state)
      modifies this`cityOptions, this`cityDisabled, this`city
      ensures cityOptions == [CityPrompt] +
        (if country == "" || state == "" then []
         else OptionsFor(Lookup(Lookup(table, country), state)))
      ensures cityDisabled <==> country == "" || state == ""
      ensures city == ""
    {
      cityOptions := [CityPrompt];
      cityDisabled := true;
      city := "";

      if country != "" && state != "" {
        var cities := Lookup(Lookup(table, country), state);
        var i := 0;
        while i < |cities|
          invariant 0 <= i <= |cities|
          invariant cityOptions == [CityPrompt] + OptionsFor(cities[..i])
          modifies this`cityOptions
        {
          assert cities[..i + 1][..i] == cities[..i];
          cityOptions := cityOptions + [Choice(cities[i], cities[i])];
          i := i + 1;
        }
        assert cities[..i] == cities;
        cityDisabled := false;
      }
    }

    /** The user picks one of the country options. The control's change
        handler, `loadStates`, runs only when the value changes; picking the
        current country again changes nothing. */
    method SelectCountry(c: string)
      requires Valid()
      requires c in Values(countryOptions)
      modifies this`country, this`stateOptions, this`cityOptions, this`stateDisabled,
               this`cityDisabled, this`state, this`city
      ensures Valid()
      ensures country == c
      ensures c != old(country) ==> state == "" && city == ""
      ensures c == old(country) ==> state == old(state) && city == old(city)
      ensures c == old(country) ==> stateOptions == old(stateOptions) && cityOptions == old(cityOptions)
      ensures countryOptions == old(countryOptions)
    {
      if c != country {
        ChosenCountryKnown(table, countryOptions, c);
        country := c;
        LoadStates();
      }
    }

    /** The user picks one of the state options. The control's change
        handler, `loadCities`, runs only when the value changes. */
    method SelectState(s: string)
      requires Valid()
      requires s in Values(stateOptions)
      modifies this`state, this`cityOptions, this`cityDisabled, this`city
      ensures Valid()
      ensures state == s
      ensures s != old(state) ==> city == ""
      ensures s == old(state) ==> city == old(city) && cityOptions == old(cityOptions)
      ensures country == old(country) && stateOptions == old(stateOptions)
    {
      if s != state {
        ChosenStateKnown(table, country, s);
        state := s;
        LoadCities();
      }
    }

    /** The user picks one of the city options; no handler runs. */
    method SelectCity(c: string)
      requires Valid()
      requires c in Values(cityOptions)
      modifies this`city
      ensures Valid() && city == c
    {
      ChosenCityKnown(table, country, state, c);
      city := c;
    }
  }

  /** Appending the table's countries to a country list whose values are all
      known keeps them all known, and keeps every value it had. */
  lemma CountriesStayKnown(t: Table, before: seq<Choice>, selected: string)
    requires forall i :: 0 <= i < |before| ==> KnownCountry(t, before[i].value)
    requires selected in Values(before)
    ensures var after := before + OptionsFor(Keys(t));
      (forall i :: 0 <= i < |after| ==> KnownCountry(t, after[i].value)) &&
      selected in Values(after)
  {
    var added := OptionsFor(Keys(t));
    var after := before + added;
    KeysAt(t);
    OptionsAt(Keys(t));
    forall i | 0 <= i < |after| ensures KnownCountry(t, after[i].value) {
      if i >= |before| {
        assert after[i] == added[i - |before|];
      }
    }
    ValuesAppend(before, added);
  }

  lemma ValuesAppend(a: seq<Choice>, b: seq<Choice>)
    ensures Values(a + b) == Values(a) + Values(b)
  {
    ValuesAt(a + b);
    ValuesAt(a);
    ValuesAt(b);
    assert forall i :: 0 <= i < |a + b| ==> Values(a + b)[i] == (Values(a) + Values(b))[i];
  }

  /** A country picked from a list of known countries is known. */
  lemma ChosenCountryKnown(t: Table, opts: seq<Choice>, c: string)
    requires forall i :: 0 <= i < |opts| ==> KnownCountry(t, opts[i].value)
    requires c in Values(opts)
    ensures KnownCountry(t, c)
  {
    ValuesAt(opts);
  }

  /** A state picked from a country's state list is the placeholder or one
      of that country's states. */
  lemma ChosenStateKnown(t: Table, country: string, s: string)
    requires KnownCountry(t, country)
    requires s in Values(StateList(t, country))
    ensures s == "" || (country != "" && s in Keys(Lookup(t, country)))
  {
    var opts := StateList(t, country);
    ValuesAt(opts);
    var i :| 0 <= i < |opts| && Values(opts)[i] == s;
    if i > 0 {
      var ks := Keys(Lookup(t, country));
      OptionsAt(ks);
      assert s == ks[i - 1];
    }
  }

  /** A city picked from a state's city list is the placeholder or one of
      the cities the table lists for that state. */
  lemma ChosenCityKnown(t: Table, country: string, state: string, c: string)
    requires KnownState(t, country, state)
    requires c in Values(CityList(t, country, state))
    ensures c == "" || (country != "" && state != "" && c in Lookup(Lookup(t, country), state))
  {
    var opts := CityList(t, country, state);
    ValuesAt(opts);
    var i :| 0 <= i < |opts| && Values(opts)[i] == c;
    if i > 0 {
      var cities := Lookup(Lookup(t, country), state);
      OptionsAt(cities);
      assert c == cities[i - 1];
    }
  }
}
