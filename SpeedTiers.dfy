/**
 * Speed categories of the dashboard. The quartiles q1 <= q2 <= q3 of the
 * schools' internet speeds split the speeds into four categories, lower
 * boundaries inclusive: "Muito Baixa" (<= q1), "Baixa" (<= q2),
 * "Média" (<= q3) and "Alta" (above q3).
 */
module SpeedTiers {

  datatype Category = MuitoBaixa | Baixa | Media | Alta

  predicate Ordered(q1: real, q2: real, q3: real) {
    q1 <= q2 <= q3
  }

  /** The category conditions of the `categoria_velocidade` dictionary. */
  predicate InCategory(speed: real, c: Category, q1: real, q2: real, q3: real) {
    match c
    case MuitoBaixa => speed <= q1
    case Baixa => q1 < speed && speed <= q2
    case Media => q2 < speed && speed <= q3
    case Alta => speed > q3
  }

  /** The if/elif ladder of the speed gauge (`criar_velocimetro`). For ordered
      quartiles it picks the one category whose condition holds. */
  function GaugeTier(valor: real, q1: real, q2: real, q3: real): (c: Category)
    ensures Ordered(q1, q2, q3) ==> InCategory(valor, c, q1, q2, q3)
  {
    if valor <= q1 then MuitoBaixa
    else if valor <= q2 then Baixa
    else if valor <= q3 then Media
    else Alta
  }

  /** With ordered quartiles every speed lies in exactly one category, the one
      the gauge ladder selects. */
  lemma CategoriesPartition(speed: real, q1: real, q2: real, q3: real)
    requires Ordered(q1, q2, q3)
    ensures forall c :: InCategory(speed, c, q1, q2, q3) <==> c == GaugeTier(speed, q1, q2, q3)
  {
  }

  /** The gauge colours of the four categories (the `cores` dictionary). */
  function Colour(c: Category): string {
    match c
    case MuitoBaixa => "rgba(250, 76, 77, 0.8)"
    case Baixa => "rgba(255, 127, 14, 0.8)"
    case Media => "rgba(44, 160, 44, 0.8)"
    case Alta => "rgba(31, 119, 180, 0.8)"
  }

  /** Different categories are drawn in different colours. */
  lemma ColoursDistinct(c: Category, d: Category)
    ensures Colour(c) == Colour(d) <==> c == d
  {
  }

  const ArrowUp: string := "\U{25B2}"
  const ArrowDown: string := "\U{25BC}"

  /** What the gauge shows besides the value itself: its colour and an arrow
      comparing the value with the reference average. */
  datatype Gauge = Gauge(colour: string, arrow: string)

  function SpeedGauge(valor: real, reference: real, q1: real, q2: real, q3: real): (g: Gauge)
    ensures Ordered(q1, q2, q3) ==>
      forall c :: g.colour == Colour(c) <==> InCategory(valor, c, q1, q2, q3)
    ensures g.arrow == ArrowUp <==> valor > reference
    ensures g.arrow == ArrowUp || g.arrow == ArrowDown
  {
    var cor :=
      if valor <= q1 then Colour(MuitoBaixa)
      else if valor <= q2 then Colour(Baixa)
      else if valor <= q3 then Colour(Media)
      else Colour(Alta);
    var seta := if valor > reference then ArrowUp else ArrowDown;
    assert Ordered(q1, q2, q3) ==> cor == Colour(GaugeTier(valor, q1, q2, q3));
    assert forall c :: cor == Colour(c) <==> c == GaugeTier(valor, q1, q2, q3) by {
      forall c { ColoursDistinct(c, GaugeTier(valor, q1, q2, q3)); }
    }
    Gauge(cor, seta)
  }

  /** The category mask: with no category selected every school passes;
      otherwise a school passes when its speed is in some selected category.
      The mask starts all false and each selected category ORs in its rows. */
  method CategoryMask(speeds: seq<real>, selected: seq<Category>, q1: real, q2: real, q3: real)
    returns (mask: seq<bool>)
    ensures |mask| == |speeds|
    ensures forall i :: 0 <= i < |speeds| ==>
      (mask[i] <==> selected == [] || exists c :: c in selected && InCategory(speeds[i], c, q1, q2, q3))
    ensures Ordered(q1, q2, q3) ==> forall i :: 0 <= i < |speeds| ==>
      (mask[i] <==> selected == [] || GaugeTier(speeds[i], q1, q2, q3) in selected)
  {
    if selected == [] {
      mask := seq(|speeds|, _ => true);
    } else {
      mask := seq(|speeds|, _ => false);
      for k := 0 to |selected|
        invariant |mask| == |speeds|
        invariant forall i :: 0 <= i < |speeds| ==>
          (mask[i] <==> exists c :: c in selected[..k] && InCategory(speeds[i], c, q1, q2, q3))
      {
        var cat := selected[k];
        var prev := mask;
        mask := seq(|speeds|, i requires 0 <= i < |speeds| =>
          mask[i] ||
            match cat
            case MuitoBaixa => speeds[i] <= q1
            case Baixa => speeds[i] > q1 && speeds[i] <= q2
            case Media => speeds[i] > q2 && speeds[i] <= q3
            case Alta => speeds[i] > q3);
        assert selected[..k + 1] == selected[..k] + [cat];
        forall i | 0 <= i < |speeds|
          ensures mask[i] <==> exists c :: c in selected[..k + 1] && InCategory(speeds[i], c, q1, q2, q3)
        {
          assert mask[i] == (prev[i] || InCategory(speeds[i], cat, q1, q2, q3));
        }
      }
      assert selected[..|selected|] == selected;
    }
    if Ordered(q1, q2, q3) {
      forall i | 0 <= i < |speeds|
        ensures mask[i] <==> selected == [] || GaugeTier(speeds[i], q1, q2, q3) in selected
      {
        CategoriesPartition(speeds[i], q1, q2, q3);
      }
    }
  }

  /** The global mask: the speed lies in the slider's closed range
      [low, high] (`between`) and passes the category mask. */
  method GlobalMask(speeds: seq<real>, low: real, high: real, selected: seq<Category>,
                    q1: real, q2: real, q3: real)
    returns (mask: seq<bool>)
    ensures |mask| == |speeds|
    ensures forall i :: 0 <= i < |speeds| ==>
      (mask[i] <==> low <= speeds[i] <= high &&
                    (selected == [] || exists c :: c in selected && InCategory(speeds[i], c, q1, q2, q3)))
  {
    var maskSpeed := seq(|speeds|, i requires 0 <= i < |speeds| => low <= speeds[i] <= high);
    var maskCat := CategoryMask(speeds, selected, q1, q2, q3);
    mask := seq(|speeds|, i requires 0 <= i < |speeds| => maskSpeed[i] && maskCat[i]);
  }
}
