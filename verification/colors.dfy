/**
 * Colour names and their `#RRGGBB` values: the built-in palette the
 * converter starts from, and the form an `HTML` colour definition is stored in.
 */
module Colors {
  import opened Text

  /** Colour name to `#RRGGBB`, as `defined_colors` holds it. */
  type ColorTable = map<string, string>

  /** The built-in palette (latex2json.py, `LATEX_COLOR_TO_HEX`). */
  const Palette: ColorTable := map[
    "black" := "#000000", "white" := "#FFFFFF", "red" := "#FF0000",
    "green" := "#00FF00", "blue" := "#0000FF", "cyan" := "#00FFFF",
    "magenta" := "#FF00FF", "yellow" := "#FFFF00", "gray" := "#808080",
    "AliceBlue" := "#F0F8FF", "AntiqueWhite" := "#FAEBD7", "Aqua" := "#00FFFF",
    "Aquamarine" := "#7FFFD4", "Azure" := "#F0FFFF", "Beige" := "#F5F5DC",
    "Bisque" := "#FFE4C4", "BlanchedAlmond" := "#FFEBCD", "BlueViolet" := "#8A2BE2",
    "Brown" := "#A52A2A", "BurlyWood" := "#DEB887", "CadetBlue" := "#5F9EA0",
    "Chartreuse" := "#7FFF00", "Chocolate" := "#D2691E", "Coral" := "#FF7F50",
    "CornflowerBlue" := "#6495ED", "Cornsilk" := "#FFF8DC", "Crimson" := "#DC143C",
    "DarkBlue" := "#00008B", "DarkCyan" := "#008B8B", "DarkGoldenRod" := "#B8860B",
    "DarkGray" := "#A9A9A9", "DarkGrey" := "#A9A9A9", "DarkGreen" := "#006400",
    "Green" := "#008000", "Blue" := "#0000FF"
  ]

  /** Regex `^[0-9A-Fa-f]{6}$` on a string that holds no newline. */
  predicate IsHtmlSpec(spec: string) {
    |spec| == 6 && forall k :: 0 <= k < 6 ==> IsHexDigit(spec[k])
  }

  /** A well-formed colour value: `#` and six upper-case hexadecimal digits. */
  predicate IsHexColor(v: string) {
    |v| == 7 && v[0] == '#' && forall k :: 1 <= k < 7 ==> IsHexDigit(v[k]) && !('a' <= v[k] <= 'f')
  }

  /** The stored form of an `HTML` colour: `f"#{spec.upper()}"`. */
  function HtmlColor(spec: string): (v: string)
    requires IsHtmlSpec(spec)
    ensures IsHexColor(v)
    ensures v[1..] == Upper(spec)
  {
    "#" + Upper(spec)
  }
}
