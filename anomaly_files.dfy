/**
 * The names of the per-network anomaly files. The Wi-Fi test loop builds
 * `logs/anomalias_<safe_ssid>_<date>.csv` from the network name and the
 * current date; the anomaly tab lists `logs/` and splits each such name back
 * into a network name and a date for display.
 */
module AnomalyFiles {

  import opened Base
  import opened Text

  const Prefix: string := "anomalias_"
  const Extension: string := ".csv"
  const LogDirectory: string := "logs/"
  const Underscore: string := "_"

  /** `ssid.replace(" ", "_").replace(":", "").replace("/", "_")`: no space, colon or slash survives. */
  function SafeSsid(ssid: string): (safe: string)
    ensures ' ' !in safe && ':' !in safe && '/' !in safe
  {
    var noSpaces := Replace(ssid, " ", "_");
    var noColons := Replace(noSpaces, ":", "");
    var safe := Replace(noColons, "/", "_");
    ReplaceRemovesChar(ssid, ' ', "_");
    ReplaceRemovesChar(noSpaces, ':', "");
    ReplaceRemovesChar(noColons, '/', "_");
    ReplaceChars(noSpaces, ":", "");
    ReplaceChars(noColons, "/", "_");
    safe
  }

  /** The file name of the anomaly log of network `ssid` on day `date`. */
  function AnomalyFileName(ssid: string, date: string): string
  {
    Prefix + SafeSsid(ssid) + Underscore + date + Extension
  }

  /** The path the monitor's `anomaly_file` is set to. */
  function AnomalyFilePath(ssid: string, date: string): string
  {
    LogDirectory + AnomalyFileName(ssid, date)
  }

  /** The listing filter: `filename.startswith('anomalias_') and filename.endswith('.csv')`. */
  predicate IsAnomalyFileName(filename: string)
  {
    StartsWith(filename, Prefix) && EndsWith(filename, Extension)
  }

  /** What the anomaly tab reads out of a file name. */
  datatype FileLabel = NetworkOnDate(network: string, date: string) | Unlabelled(text: string)

  /**
   * Strips every `anomalias_` and every `.csv`, splits on `_`, and takes the
   * last piece as the date and the others, re-joined with `_`, as the network.
   */
  function Label(filename: string): FileLabel
  {
    var stem := Replace(Replace(filename, Prefix, ""), Extension, "");
    var parts := Split(stem, Underscore);
    if |parts| >= 2 then NetworkOnDate(Join(parts[..|parts| - 1], Underscore), parts[|parts| - 1])
    else Unlabelled(stem)
  }

  /** The text shown in the list: `"<network> (<date>)"`, or the bare stem. */
  function DisplayName(filename: string): string
  {
    match Label(filename)
    case NetworkOnDate(network, date) => network + " (" + date + ")"
    case Unlabelled(text) => text
  }

  /** What `strftime('%Y-%m-%d')` produces consists of digits and dashes. */
  predicate IsDateText(date: string)
  {
    forall i :: 0 <= i < |date| ==> ('0' <= date[i] <= '9') || date[i] == '-'
  }

  /** `anomalias_` does not occur in `<safe>_<date>.csv` when it does not occur in `<safe>_`. */
  lemma PrefixAbsentFromBody(safe: string, date: string)
    requires IsDateText(date)
    requires !Contains(safe + Underscore, Prefix)
    ensures !Contains(safe + Underscore + date + Extension, Prefix)
  {
    var body := safe + Underscore + date + Extension;
    var head := |safe| + 1;
    assert body[..head] == safe + Underscore;
    forall p | OccursAt(body, Prefix, p) ensures false {
      if p + |Prefix| <= head {
        OccursInsidePrefix(body, head, Prefix, p);
      } else {
        OccursAtChar(body, Prefix, p, 9);
      }
    }
  }

  /** In `<safe>_<date>.csv` the first `.csv` is the final one when `safe` holds none. */
  lemma ExtensionOnlyAtEnd(safe: string, date: string)
    requires IsDateText(date)
    requires !Contains(safe, Extension)
    ensures var body := safe + Underscore + date + Extension;
      IndexOf(body, Extension) == Some(|safe| + 1 + |date|)
  {
    var body := safe + Underscore + date + Extension;
    var q := |safe| + 1 + |date|;
    assert body[..|safe|] == safe;
    assert body[q..q + |Extension|] == Extension;
    forall j | 0 <= j < q ensures !OccursAt(body, Extension, j) {
      if OccursAt(body, Extension, j) {
        if j + |Extension| <= |safe| {
          OccursInsidePrefix(body, |safe|, Extension, j);
        } else if j <= |safe| {
          OccursAtChar(body, Extension, j, |safe| - j);
        } else {
          OccursAtChar(body, Extension, j, 0);
        }
      }
    }
    IndexOfIs(body, Extension, q);
  }

  /** Removing the prefix and the extension from a constructed name leaves `<safe>_<date>`. */
  lemma StemOfFileName(ssid: string, date: string)
    requires IsDateText(date)
    requires !Contains(SafeSsid(ssid) + Underscore, Prefix)
    requires !Contains(SafeSsid(ssid), Extension)
    ensures Replace(Replace(AnomalyFileName(ssid, date), Prefix, ""), Extension, "") == SafeSsid(ssid) + Underscore + date
  {
    var safe := SafeSsid(ssid);
    var body := safe + Underscore + date + Extension;
    var name := AnomalyFileName(ssid, date);
    assert name == Prefix + body;
    assert OccursAt(name, Prefix, 0) by { assert name[..|Prefix|] == Prefix; }
    IndexOfIs(name, Prefix, 0);
    assert name[|Prefix|..] == body;
    PrefixAbsentFromBody(safe, date);
    assert Replace(body, Prefix, "") == body;
    assert Replace(name, Prefix, "") == body;
    ExtensionOnlyAtEnd(safe, date);
    var q := |safe| + 1 + |date|;
    assert body[q + |Extension|..] == "";
    assert Replace("", Extension, "") == "";
    assert body[..q] == safe + Underscore + date;
  }

  /**
   * The name built for a network round-trips through the listing: it passes
   * the filter and reads back as that network's safe name and the date, when
   * the safe name holds no `.csv` and does not end up containing `anomalias_`.
   */
  lemma {:induction false} LabelOfFileName(ssid: string, date: string)
    requires IsDateText(date)
    requires !Contains(SafeSsid(ssid) + Underscore, Prefix)
    requires !Contains(SafeSsid(ssid), Extension)
    ensures IsAnomalyFileName(AnomalyFileName(ssid, date))
    ensures Label(AnomalyFileName(ssid, date)) == NetworkOnDate(SafeSsid(ssid), date)
    ensures DisplayName(AnomalyFileName(ssid, date)) == SafeSsid(ssid) + " (" + date + ")"
  {
    var safe := SafeSsid(ssid);
    var name := AnomalyFileName(ssid, date);
    assert name[..|Prefix|] == Prefix;
    assert name[|name| - |Extension|..] == Extension;
    StemOfFileName(ssid, date);
    var stem := safe + Underscore + date;
    SplitAtSeparator(safe, date, Underscore);
    AbsentChar(date, Underscore, 0);
    var parts := Split(stem, Underscore);
    assert parts == Split(safe, Underscore) + [date];
    assert parts[..|parts| - 1] == Split(safe, Underscore);
    JoinSplit(safe, Underscore);
  }
}
