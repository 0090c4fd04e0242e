/** The claims metadata of an issuer's configuration. */
module IssuerConfig {
  import opened Wrappers
  import opened Json

  datatype Label = Label(locale: string, name: string)

  /** A claim of the issuer's configuration; without `display` it is not shown. */
  datatype ClaimConfig = ClaimConfig(path: Path, display: Option<seq<Label>>)

  datatype DisplayableClaim = DisplayableClaim(path: Path, display: seq<Label>)

  /** The name of a parsed attribute: its key, or a name per locale. */
  datatype Name = Plain(key: string) | Localised(labels: map<string, string>)

  /** The claims meant to be shown, in order. */
  function Displayable(claims: seq<ClaimConfig>): (r: seq<DisplayableClaim>)
    ensures forall d :: d in r <==> ClaimConfig(d.path, Some(d.display)) in claims
  {
    if claims == [] then []
    else
      var rest := Displayable(claims[1..]);
      assert forall c :: c in claims <==> c == claims[0] || c in claims[1..];
      if claims[0].display.Some? then [DisplayableClaim(claims[0].path, claims[0].display.value)] + rest else rest
  }

  /** Wherever the list of claims is cut, the front's come before the back's. */
  lemma {:induction false} DisplayableKeepsOrder(front: seq<ClaimConfig>, back: seq<ClaimConfig>)
    ensures Displayable(front + back) == Displayable(front) + Displayable(back)
  {
    if front == [] {
      assert front + back == back;
    } else {
      assert (front + back)[1..] == front[1..] + back;
      DisplayableKeepsOrder(front[1..], back);
    }
  }

  /** The locale-to-name record; a repeated locale keeps its last name. */
  function LabelMap(labels: seq<Label>): map<string, string> {
    if labels == [] then map[]
    else LabelMap(labels[..|labels| - 1])[labels[|labels| - 1].locale := labels[|labels| - 1].name]
  }

  /** The record has the locales of the labels, and no others. */
  lemma {:induction false} LabelMapLocales(labels: seq<Label>, locale: string)
    ensures locale in LabelMap(labels) <==> exists l :: l in labels && l.locale == locale
  {
    if labels != [] {
      var n := |labels| - 1;
      LabelMapLocales(labels[..n], locale);
      assert forall l :: l in labels <==> l in labels[..n] || l == labels[n];
    }
  }

  /** A locale has the name of the last label for it. */
  lemma {:induction false} LabelMapKeepsLast(labels: seq<Label>, i: nat)
    requires i < |labels|
    requires forall j :: i < j < |labels| ==> labels[j].locale != labels[i].locale
    ensures labels[i].locale in LabelMap(labels) && LabelMap(labels)[labels[i].locale] == labels[i].name
    decreases |labels|
  {
    var n := |labels| - 1;
    if i < n {
      LabelMapKeepsLast(labels[..n], i);
    }
  }
}
