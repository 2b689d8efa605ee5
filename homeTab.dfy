/** `HomeTab`: the two tabs of the home screen and the greeting shown above them. */
module Home {

  datatype HomeTab = Dashboard | Manage {

    /** `rawValue`, which is also the tab's `id`. */
    function RawValue(): string
    {
      match this
      case Dashboard => "dashboard"
      case Manage => "manage"
    }

    /** `title` */
    function Title(): string
    {
      match this
      case Dashboard => "Overview"
      case Manage => "Manage"
    }
  }

  /** `greeting(for:)`, given the hour component of the current time. */
  function Greeting(hour: int): (g: string)
  {
    if 5 <= hour < 12 then "Good morning"
    else if 12 <= hour < 17 then "Good afternoon"
    else if 17 <= hour < 22 then "Good evening"
    else "Good night"
  }

  /** The two tabs have distinct ids and distinct titles. */
  lemma TabsDistinct(a: HomeTab, b: HomeTab)
    requires a != b
    ensures a.RawValue() != b.RawValue()
    ensures a.Title() != b.Title()
  {
    assert a.RawValue()[0] != b.RawValue()[0];
    assert a.Title()[0] != b.Title()[0];
  }

  /**
   * Each greeting belongs to exactly one range of hours: morning 5-11,
   * afternoon 12-16, evening 17-21 and night for every other hour.
   */
  lemma GreetingIff(hour: int)
    ensures Greeting(hour) == "Good morning" <==> 5 <= hour < 12
    ensures Greeting(hour) == "Good afternoon" <==> 12 <= hour < 17
    ensures Greeting(hour) == "Good evening" <==> 17 <= hour < 22
    ensures Greeting(hour) == "Good night" <==> hour < 5 || 22 <= hour
  {
    var g := Greeting(hour);
    assert "Good morning"[5] == 'm' && "Good afternoon"[5] == 'a';
    assert "Good evening"[5] == 'e' && "Good night"[5] == 'n';
    assert g[5] == 'm' <==> 5 <= hour < 12;
    assert g[5] == 'a' <==> 12 <= hour < 17;
    assert g[5] == 'e' <==> 17 <= hour < 22;
  }
}
