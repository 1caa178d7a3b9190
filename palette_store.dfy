/**
 * PaletteStore: an ordered list of named emoji palettes. Lookups, removals and
 * insertions clamp their index, removal keeps at least one palette, and an
 * inserted palette gets an id one above the largest present.
 *
 * Persistence in UserDefaults is not modelled: what was restored is an input of
 * the constructor, and saving after every change is left out.
 */
module Palettes {
  import opened Wrappers
  import opened FoundationTypes

  datatype Palette = Palette(name: string, emojis: string, id: int)

  /** `min(max(i, lo), hi)`. */
  function Clamp(i: int, lo: int, hi: int): (r: int)
    requires lo <= hi
    ensures lo <= r <= hi
    ensures lo <= i <= hi ==> r == i
    ensures i < lo ==> r == lo
    ensures i > hi ==> r == hi
  {
    var atLeast := if i < lo then lo else i;
    if atLeast > hi then hi else atLeast
  }

  /** Swift's `/` on a positive divisor: the quotient truncated toward zero. */
  function SwiftQuotient(a: int, n: Positive): int {
    if a >= 0 then a / n else -((-a) / n)
  }

  /** Swift's `%` on a positive divisor: what truncating division leaves; it takes the sign of `a`. */
  function SwiftRemainder(a: int, n: Positive): (r: int)
    ensures a == SwiftQuotient(a, n) * n + r
    ensures a >= 0 ==> 0 <= r < n
    ensures a < 0 ==> 0 < r + n && r <= 0
  {
    if a >= 0 then a % n
    else
      var q := (-a) / n;
      assert -a == q * n + (-a) % n;
      assert (-q) * n == -(q * n);
      -((-a) % n)
  }

  /** `palettes.max(by: { $0.id < $1.id })?.id`: the largest id, if there is a palette. */
  function MaxId(palettes: seq<Palette>): (r: Option<int>)
    ensures r.None? <==> palettes == []
    ensures r.Some? ==> exists i :: 0 <= i < |palettes| && palettes[i].id == r.value
    ensures r.Some? ==> forall i :: 0 <= i < |palettes| ==> palettes[i].id <= r.value
  {
    if palettes == [] then None
    else
      var last := palettes[|palettes| - 1].id;
      match MaxId(palettes[..|palettes| - 1])
      case None => Some(last)
      case Some(m) => Some(if m < last then last else m)
  }

  /** The id `insertPalette` allocates: one above the largest id, or 1 for an empty list. */
  function NextId(palettes: seq<Palette>): (r: int)
    ensures forall i :: 0 <= i < |palettes| ==> palettes[i].id < r
    ensures palettes == [] ==> r == 1
  {
    MaxId(palettes).GetOr(0) + 1
  }

  /** The built-in palettes' emojis. */
  const VehicleEmojis: string := "\U{1F68D}\U{1F68E}\U{1F697}\U{1F69B}\U{1F696}"
  const SportEmojis: string := "\U{26BD}\U{FE0F}\U{1F3C0}\U{1F3C8}\U{1F94E}\U{1F3D3}"

  class PaletteStore {
    const name: string
    var palettes: seq<Palette>

    /** There is always a palette to show. */
    ghost predicate Valid()
      reads this
    {
      |palettes| >= 1
    }

    /**
     * `init(named:)`: takes what was restored from storage (None when nothing could be
     * decoded) and, when that leaves no palettes, inserts "Vehicles" and then "Sports",
     * each at the front.
     */
    constructor (name: string, restored: Option<seq<Palette>>)
      ensures Valid() && this.name == name
      ensures restored.Some? && restored.value != [] ==> palettes == restored.value
      ensures restored.None? || restored.value == [] ==>
        palettes == [Palette("Sports", SportEmojis, 2), Palette("Vehicles", VehicleEmojis, 1)]
    {
      this.name := name;
      palettes := [];
      new;
      if restored.Some? {
        palettes := restored.value;
      }
      if palettes == [] {
        InsertPalette("Vehicles", Some(VehicleEmojis));
        InsertPalette("Sports", Some(SportEmojis));
      }
    }

    /** `palette(at:)`: the palette at `index` clamped into range. */
    function PaletteAt(index: int): (r: Palette)
      reads this
      requires Valid()
      ensures 0 <= index < |palettes| ==> r == palettes[index]
      ensures index < 0 ==> r == palettes[0]
      ensures index >= |palettes| ==> r == palettes[|palettes| - 1]
    {
      palettes[Clamp(index, 0, |palettes| - 1)]
    }

    /**
     * `removePalette(at:)`: deletes the palette at `index` when it is a valid index and not
     * the last palette left; returns `index % palettes.count` of the resulting list.
     */
    method RemovePalette(index: int) returns (r: int)
      requires Valid()
      modifies this`palettes
      ensures Valid()
      ensures old(|palettes|) > 1 && 0 <= index < old(|palettes|) ==>
        |palettes| == old(|palettes|) - 1 &&
        palettes[..index] == old(palettes[..index]) && palettes[index..] == old(palettes[index + 1..])
      ensures !(old(|palettes|) > 1 && 0 <= index < old(|palettes|)) ==> palettes == old(palettes)
      ensures r == SwiftRemainder(index, |palettes|)
      ensures index >= 0 ==> 0 <= r < |palettes|
    {
      if |palettes| > 1 && 0 <= index < |palettes| {
        palettes := palettes[..index] + palettes[index + 1..];
      }
      r := SwiftRemainder(index, |palettes|);
    }

    /**
     * `insertPalette(named:emojis:at:)`: a new palette, with "" for missing emojis and a
     * fresh id, at `index` clamped to `0...count`.
     */
    method InsertPalette(name: string, emojis: Option<string> := None, index: int := 0)
      modifies this`palettes
      ensures var k := Clamp(index, 0, old(|palettes|));
        && |palettes| == old(|palettes|) + 1
        && palettes[..k] == old(palettes[..k])
        && palettes[k] == Palette(name, emojis.GetOr(""), NextId(old(palettes)))
        && palettes[k + 1..] == old(palettes[k..])
      ensures forall p :: p in old(palettes) ==> p in palettes && p.id != NextId(old(palettes))
    {
      var unique := MaxId(palettes).GetOr(0) + 1;
      var palette := Palette(name, emojis.GetOr(""), unique);
      var safeIndex := Clamp(index, 0, |palettes|);
      palettes := palettes[..safeIndex] + [palette] + palettes[safeIndex..];
      assert palettes[safeIndex + 1..] == old(palettes[safeIndex..]);
    }
  }
}
