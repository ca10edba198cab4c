/** The notebook colour palette (lib/colors.ts). */
module Colors {

  /** The ten Tailwind border classes, in palette order. */
  const NotebookColors: seq<string> := [
    "border-blue-300",
    "border-green-300",
    "border-purple-300",
    "border-yellow-300",
    "border-pink-300",
    "border-indigo-300",
    "border-teal-300",
    "border-orange-300",
    "border-red-300",
    "border-cyan-300"
  ]

  const PaletteSize: nat := 10

  /** The colour of the notebook at position `index`: the palette cycled by index. */
  function NotebookColor(index: nat): (c: string)
    ensures c in NotebookColors
    ensures c != ""
  {
    NotebookColors[index % |NotebookColors|]
  }

  /** No two palette entries are equal. */
  lemma PaletteDistinct()
    ensures |NotebookColors| == PaletteSize
    ensures forall i, j :: 0 <= i < j < |NotebookColors| ==> NotebookColors[i] != NotebookColors[j]
  {
    forall i, j | 0 <= i < j < |NotebookColors|
      ensures NotebookColors[i] != NotebookColors[j]
    {
      // every entry reads "border-<name>-300"; the names differ at index 7 or in length
      assert NotebookColors[i][7] != NotebookColors[j][7] || |NotebookColors[i]| != |NotebookColors[j]|;
    }
  }

  /** The first ten indices read the palette directly; index 0 is blue. */
  lemma ColorOfSmallIndex(i: nat)
    requires i < PaletteSize
    ensures NotebookColor(i) == NotebookColors[i]
    ensures NotebookColor(0) == "border-blue-300"
  {
  }

  /** The colour assignment repeats with period ten. */
  lemma ColorPeriodic(i: nat)
    ensures NotebookColor(i + PaletteSize) == NotebookColor(i)
  {
    assert (i + 10) % 10 == i % 10;
  }

  /** Any ten consecutive indices receive ten different colours. */
  lemma ConsecutiveColorsDistinct(k: nat, i: nat, j: nat)
    requires k <= i < j < k + PaletteSize
    ensures NotebookColor(i) != NotebookColor(j)
  {
    PaletteDistinct();
    var a, b := i % 10, j % 10;
    assert i == (i / 10) * 10 + a && j == (j / 10) * 10 + b;
    if a < b {
      assert NotebookColors[a] != NotebookColors[b];
    } else {
      assert NotebookColors[b] != NotebookColors[a];
    }
  }
}
