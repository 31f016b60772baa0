/** File formats and the extension check performed when a workbook is opened. */
module Workbook {
  import opened Results

  /** The three spreadsheet formats: the legacy binary format and the two
      zip-based XML formats, the second of which also carries macros. */
  datatype Format = Xls | Xlsx | Xlsm

  function Extension(f: Format): string {
    match f
    case Xls => ".xls"
    case Xlsx => ".xlsx"
    case Xlsm => ".xlsm"
  }

  /** The legacy binary format is opened for reading only: cells cannot be
      written and the workbook cannot be saved. */
  predicate ReadOnly(f: Format) {
    f == Xls
  }

  predicate EndsWith(s: string, suffix: string) {
    |suffix| <= |s| && s[|s| - |suffix|..] == suffix
  }

  /** No file name carries two of the recognised extensions. */
  lemma ExtensionsExclusive(name: string, f: Format, g: Format)
    requires EndsWith(name, Extension(f)) && EndsWith(name, Extension(g))
    ensures f == g
  {
    var ef, eg := Extension(f), Extension(g);
    assert name[|name| - 1] == ef[|ef| - 1] by {
      assert name[|name| - |ef|..][|ef| - 1] == name[|name| - 1];
    }
    assert name[|name| - 1] == eg[|eg| - 1] by {
      assert name[|name| - |eg|..][|eg| - 1] == name[|name| - 1];
    }
  }

  /** Accepts a file name ending in one of the three spreadsheet extensions
      and reports which format it names; anything else is rejected. */
  function CheckExtension(name: string): (r: Result<Format>)
    ensures r.Ok? <==> exists f :: EndsWith(name, Extension(f))
    ensures r.Ok? ==> EndsWith(name, Extension(r.value))
    ensures r.Err? ==> r.error == UnsupportedFormat
  {
    if EndsWith(name, Extension(Xls)) then Ok(Xls)
    else if EndsWith(name, Extension(Xlsx)) then Ok(Xlsx)
    else if EndsWith(name, Extension(Xlsm)) then Ok(Xlsm)
    else Err(UnsupportedFormat)
  }

  /** A name carrying a format's extension is opened as that format. */
  lemma RecognisesExtension(stem: string, f: Format)
    ensures CheckExtension(stem + Extension(f)) == Ok(f)
  {
    var name := stem + Extension(f);
    assert name[|name| - |Extension(f)|..] == Extension(f);
    var r := CheckExtension(name);
    ExtensionsExclusive(name, f, r.value);
  }
}
