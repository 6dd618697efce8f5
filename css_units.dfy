/**
 * The unit converter of the table renderer (`TableToIMG._ConvertToPx`):
 * a CSS length such as "250pt", "50%" or "1.5in" becomes a whole number
 * of pixels, given the table's width and height and the base font size.
 */
module CssUnits {
  import opened Results
  import opened Numbers

  /** The sizing context the conversion reads from the renderer's fields. */
  datatype Context = Context(tableWidth: int, tableHeight: int, fontSize: int)

  /** Python's `int()` refused the numeric part of the length. */
  datatype ConvertError = NotAnInteger(text: string)

  /** `val[-2:]`: the last two characters, or the whole string when it is shorter. */
  function UnitOf(val: string): string {
    if |val| >= 2 then val[|val| - 2..] else val
  }

  /** `val[:-2]`: everything but the last two characters. */
  function NumberOf(val: string): string {
    if |val| >= 2 then val[..|val| - 2] else ""
  }

  /** `s.split(".")[0]`: the text before the first dot. */
  function BeforeDot(s: string): (r: string)
    ensures |r| <= |s| && r == s[..|r|]
    ensures forall i :: 0 <= i < |r| ==> r[i] != '.'
    ensures |r| < |s| ==> s[|r|] == '.'
  {
    if s == [] || s[0] == '.' then [] else [s[0]] + BeforeDot(s[1..])
  }

  predicate KnownUnit(unit: string) {
    unit in {"px", "in", "pt", "pc", "cm", "mm", "em", "vw", "vh"}
  }

  /**
   * `int(value * factor)` with the factor table of the renderer; the
   * fractional factors 1.3 (pt) and 3.8 (mm) are taken as exact tenths.
   * An unknown unit gives 0 (the source only prints a warning).
   */
  function Scale(value: int, unit: string, ctx: Context): int {
    match unit
    case "px" => value
    case "in" => 96 * value
    case "pt" => TruncDiv(13 * value, 10)
    case "pc" => 16 * value
    case "cm" => 38 * value
    case "mm" => TruncDiv(38 * value, 10)
    case "em" => value * ctx.fontSize
    case "vw" => value * ctx.tableWidth
    case "vh" => value * ctx.tableHeight
    case _ => 0
  }

  /** `_ConvertToPx`: the error result stands for the `ValueError` of `int()`. */
  function ConvertToPx(val: string, ctx: Context): Result<int, ConvertError> {
    if |val| == 0 then Ok(0)
    else if '%' in val then
      match ParseInt(val[..|val| - 1])
      case None => Err(NotAnInteger(val[..|val| - 1]))
      case Some(n) => Ok(TruncDiv(n * ctx.tableWidth, 100))
    else
      var number := BeforeDot(NumberOf(val));
      match ParseInt(number)
      case None => Err(NotAnInteger(number))
      case Some(n) => Ok(Scale(n, UnitOf(val), ctx))
  }

  /** The empty length (every cell of the renderer, see TableImage) is 0 pixels. */
  lemma ConvertEmpty(ctx: Context)
    ensures ConvertToPx("", ctx) == Ok(0)
  {
  }

  /** "N%" is N hundredths of the table width, truncated toward zero. */
  lemma ConvertPercent(n: nat, ctx: Context)
    ensures ConvertToPx(NatToString(n) + "%", ctx) == Ok(TruncDiv(n * ctx.tableWidth, 100))
  {
    var s := NatToString(n) + "%";
    assert s[|s| - 1] == '%';
    assert s[..|s| - 1] == NatToString(n);
    ParseIntOfNat(n);
  }

  /**
   * "N<unit>" and "N.<digits><unit>": the fraction is dropped and the
   * integer part is scaled by the unit's factor; an unknown unit gives 0.
   */
  lemma ConvertWithUnit(n: nat, fraction: string, unit: string, ctx: Context)
    requires fraction == [] || (fraction[0] == '.' && AllDigits(fraction[1..]))
    requires |unit| == 2 && '%' !in unit
    ensures ConvertToPx(NatToString(n) + fraction + unit, ctx) == Ok(Scale(n, unit, ctx))
    ensures !KnownUnit(unit) ==> ConvertToPx(NatToString(n) + fraction + unit, ctx) == Ok(0)
    ensures unit == "px" ==> ConvertToPx(NatToString(n) + fraction + unit, ctx) == Ok(n)
  {
    var digits := NatToString(n);
    var s := digits + fraction + unit;
    assert '%' !in s by {
      forall i | 0 <= i < |s| ensures s[i] != '%' {
        if i < |digits| { assert s[i] == digits[i]; }
        else if i < |digits| + |fraction| {
          assert s[i] == fraction[i - |digits|];
          if i > |digits| { assert fraction[i - |digits|] == fraction[1..][i - |digits| - 1]; }
        } else { assert s[i] == unit[i - |digits| - |fraction|]; }
      }
    }
    assert UnitOf(s) == unit;
    assert NumberOf(s) == digits + fraction;
    BeforeDotOfDigits(digits, fraction);
    ParseIntOfNat(n);
  }

  lemma {:induction false} BeforeDotOfDigits(digits: string, rest: string)
    requires AllDigits(digits)
    requires rest == [] || rest[0] == '.'
    ensures BeforeDot(digits + rest) == digits
  {
    if digits != [] {
      assert (digits + rest)[1..] == digits[1..] + rest;
      BeforeDotOfDigits(digits[1..], rest);
    }
  }

  /** The source raises, rather than returning 0, when the part before the unit is not an integer. */
  lemma ConvertRejectsWords(ctx: Context)
    ensures ConvertToPx("autopx", ctx).Err?
  {
    var s := "autopx";
    assert forall i :: 0 <= i < |s| ==> s[i] != '%';
    assert NumberOf(s) == "auto";
    assert BeforeDot("auto") == "auto";
    ParseIntRejects("auto", 0);
  }
}
