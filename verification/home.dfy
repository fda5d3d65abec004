/**
 * `timeAgo` of the home page, as a function of the elapsed whole seconds
 * `diff`: a bucket (just now, minutes, hours, days, weeks) and its text.
 */
module Home {
  import opened Decimal

  /** How long ago, in the largest unit that fits. */
  datatype Ago = JustNow | Minutes(n: nat) | Hours(n: nat) | Days(n: nat) | Weeks(n: nat)

  /**
   * The bucket of `diff`: below a minute (future times included) is "just
   * now"; otherwise the count of whole units, which stays below the next unit.
   */
  function Bucket(diff: int): (a: Ago)
    ensures a.JustNow? <==> diff < 60
    ensures a.Minutes? <==> 60 <= diff < 3600
    ensures a.Hours? <==> 3600 <= diff < 86400
    ensures a.Days? <==> 86400 <= diff < 604800
    ensures a.Weeks? <==> diff >= 604800
    ensures a.Minutes? ==> 1 <= a.n <= 59 && a.n * 60 <= diff < a.n * 60 + 60
    ensures a.Hours? ==> 1 <= a.n <= 23 && a.n * 3600 <= diff < a.n * 3600 + 3600
    ensures a.Days? ==> 1 <= a.n <= 6 && a.n * 86400 <= diff < a.n * 86400 + 86400
    ensures a.Weeks? ==> 1 <= a.n && a.n * 604800 <= diff < a.n * 604800 + 604800
  {
    if diff < 60 then JustNow
    else if diff < 3600 then Minutes(diff / 60)
    else if diff < 86400 then Hours(diff / 3600)
    else if diff < 604800 then Days(diff / 86400)
    else Weeks(diff / 604800)
  }

  /**
   * The text of a bucket: "Just now", or the count, the unit letter and
   * " ago". No count reads as "Just now".
   */
  function Render(a: Ago): (r: string)
    ensures r == "Just now" <==> a.JustNow?
  {
    match a
    case JustNow => "Just now"
    case Minutes(n) => var r := NatToString(n) + "m ago"; assert r[|r| - 5] == 'm'; r
    case Hours(n) => var r := NatToString(n) + "h ago"; assert r[|r| - 5] == 'h'; r
    case Days(n) => var r := NatToString(n) + "d ago"; assert r[|r| - 5] == 'd'; r
    case Weeks(n) => var r := NatToString(n) + "w ago"; assert r[|r| - 5] == 'w'; r
  }

  /**
   * `timeAgo` on the elapsed seconds: "Just now" below a minute, otherwise
   * the bucket's count, its unit letter and " ago".
   */
  function TimeAgo(diff: int): (r: string)
    ensures r == "Just now" <==> diff < 60
    ensures diff >= 60 ==> r == NatToString(Bucket(diff).n) + [Unit(Bucket(diff))] + " ago"
  {
    var a := Bucket(diff);
    if !a.JustNow? then
      CountedShape(a);
      Render(a)
    else
      Render(a)
  }

  /** The unit letter of a counted bucket. */
  function Unit(a: Ago): char
    requires !a.JustNow?
  {
    match a
    case Minutes(_) => 'm'
    case Hours(_) => 'h'
    case Days(_) => 'd'
    case Weeks(_) => 'w'
  }

  /** A counted bucket reads as its count, its unit letter and " ago"; the count and the letter sit at fixed places from the end. */
  lemma CountedShape(a: Ago)
    requires !a.JustNow?
    ensures var r := Render(a);
      && r == NatToString(a.n) + [Unit(a)] + " ago"
      && |r| >= 6 && r[|r| - 5] == Unit(a) && r[..|r| - 5] == NatToString(a.n)
  {
    var r := NatToString(a.n) + [Unit(a)] + " ago";
    assert r == NatToString(a.n) + ([Unit(a)] + " ago");
    assert r[..|r| - 5] == NatToString(a.n);
  }

  /** Different buckets read differently: the text determines the unit and the count. */
  lemma RenderInjective(a: Ago, b: Ago)
    requires Render(a) == Render(b)
    ensures a == b
  {
    var r := Render(a);
    if !a.JustNow? && !b.JustNow? {
      CountedShape(a);
      CountedShape(b);
      assert DecimalValue(NatToString(a.n)) == DecimalValue(NatToString(b.n));
    } else if !a.JustNow? {
      CountedShape(a);
    } else if !b.JustNow? {
      CountedShape(b);
    }
  }
}
