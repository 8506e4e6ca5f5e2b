/**
 * The certificate strip of the home page
 * (src/components/home/CertificateSlider.tsx): the headline texts with their
 * fallbacks, the slider settings chosen by viewport, and the lightbox that
 * shows one certificate at a time with wrap-around navigation.
 */
module CertificateSlider {
  import opened Wrappers

  datatype Certificate = Certificate(image: string, title: string, description: string)

  /** The nine certificates, in display order. */
  const Certificates: seq<Certificate> := [
    Certificate("/images/cert/cert9.jpg", "Certificate of Partnership",
      "Authorizes VSource as student recruiter for Dai Nam University."),
    Certificate("/images/cert/cert8.jpg", "Certificate of Partnership",
      "Authorizes VSource as recruiting agent for Ken Walker International University."),
    Certificate("/images/cert/cert7.jpg", "Certificate of Partnership",
      "Certifies VSource Educational Services as recruiting agent for University of Georgia."),
    Certificate("/images/cert/cert1.jpg", "Extract from Registry of Legal Entities",
      "Proof of company registration in Georgia Public Registry."),
    Certificate("/images/cert/cert6.jpg", "Certificate of Incorporation",
      "Proof of VSource legal incorporation in India."),
    Certificate("/images/cert/cert5.jpg", "Certificate of Partnership",
      "Recognizes VSource as student recruitment agent for Belgorod State National Research University."),
    Certificate("/images/cert/cert4.jpg", "Russian Tax Registration Certificate",
      "Confirms tax registration of VSource-IND in Russia (Belgorod)."),
    Certificate("/images/cert/cert2.jpg", "Certificate of Authorization",
      "Authorizes VSource to recruit for Caucasus International University."),
    Certificate("/images/cert/cert3.jpg", "Certificate of Partnership",
      "Authorizes VSource to recruit for University of Georgia programs.")
  ]

  // ---------------------------------------------------------------------------
  // `isNonEmpty` and the headline fallbacks

  /**
   * The characters `String.prototype.trim` removes: the ECMAScript WhiteSpace
   * code points (tab, vertical tab, form feed, the byte order mark and the
   * space separators) and the LineTerminator code points.
   */
  predicate IsWhitespace(c: char) {
    || c == '\t' || c == '\U{000B}' || c == '\U{000C}' || c == ' ' || c == '\U{00A0}'
    || c == '\U{FEFF}' || c == '\U{1680}' || ('\U{2000}' <= c <= '\U{200A}')
    || c == '\U{202F}' || c == '\U{205F}' || c == '\U{3000}'
    || c == '\n' || c == '\r' || c == '\U{2028}' || c == '\U{2029}'
  }

  predicate AllWhitespace(s: string) {
    forall i :: 0 <= i < |s| ==> IsWhitespace(s[i])
  }

  /** The end of the whitespace run of `s` that starts at `i`. */
  function SkipForward(s: string, i: nat): (k: nat)
    requires i <= |s|
    ensures i <= k <= |s|
    ensures forall m :: i <= m < k ==> IsWhitespace(s[m])
    ensures k == |s| || !IsWhitespace(s[k])
    decreases |s| - i
  {
    if i < |s| && IsWhitespace(s[i]) then SkipForward(s, i + 1) else i
  }

  /** The start of the whitespace run of `s` that ends at `j`. */
  function SkipBackward(s: string, j: nat): (k: nat)
    requires j <= |s|
    ensures k <= j
    ensures forall m :: k <= m < j ==> IsWhitespace(s[m])
    ensures k == 0 || !IsWhitespace(s[k - 1])
  {
    if j > 0 && IsWhitespace(s[j - 1]) then SkipBackward(s, j - 1) else j
  }

  /** `s` without its leading whitespace. */
  function TrimStart(s: string): (r: string)
    ensures |r| <= |s| && r == s[|s| - |r|..]
    ensures AllWhitespace(s[..|s| - |r|])
    ensures r == [] || !IsWhitespace(r[0])
  {
    s[SkipForward(s, 0)..]
  }

  /** `s` without its trailing whitespace. */
  function TrimEnd(s: string): (r: string)
    ensures |r| <= |s| && r == s[..|r|]
    ensures AllWhitespace(s[|r|..])
    ensures r == [] || !IsWhitespace(r[|r| - 1])
  {
    s[..SkipBackward(s, |s|)]
  }

  function Trim(s: string): string {
    TrimEnd(TrimStart(s))
  }

  /** Trimming leaves nothing exactly when every character is whitespace. */
  lemma TrimEmpty(s: string)
    ensures Trim(s) == [] <==> AllWhitespace(s)
  {
    var t := TrimStart(s);
    var k := |s| - |t|;
    if Trim(s) == [] {
      assert AllWhitespace(t[0..]);
      assert t == [];
      assert s[..k] == s;
    }
  }

  /** `isNonEmpty`: a string is given and holds more than whitespace. */
  predicate IsNonEmpty(v: Option<string>) {
    v.Some? && v.value != "" && |Trim(v.value)| > 0
  }

  lemma IsNonEmptySpec(v: Option<string>)
    ensures IsNonEmpty(v) <==> v.Some? && !AllWhitespace(v.value)
  {
    if v.Some? {
      TrimEmpty(v.value);
    }
  }

  /** A headline text: the given one when it is non-empty, the default otherwise. */
  function OrDefault(v: Option<string>, default: string): (r: string)
    ensures IsNonEmpty(v) ==> r == v.value
    ensures !IsNonEmpty(v) ==> r == default
  {
    if IsNonEmpty(v) then v.value else default
  }

  const DefaultTitlePrefix := "World Class"
  const DefaultTitleAccent := "Medical Universities"
  const DefaultLine1 := "REGISTRATIONS, INCORPORATIONS"
  const DefaultLine2 := "AGREEMENTS, COLLABORATIONS"

  /** A default that starts with a visible character makes the headline text non-empty whatever is given. */
  lemma OrDefaultShown(v: Option<string>, default: string)
    requires default != [] && !IsWhitespace(default[0])
    ensures IsNonEmpty(Some(OrDefault(v, default)))
  {
    IsNonEmptySpec(Some(default));
  }

  /**
   * The two subtitle lines are rendered only when non-empty; after the
   * fallback they always are, whatever the props.
   */
  lemma SubtitleLinesAlwaysRender(sub1: Option<string>, sub2: Option<string>)
    ensures IsNonEmpty(Some(OrDefault(sub1, DefaultLine1)))
    ensures IsNonEmpty(Some(OrDefault(sub2, DefaultLine2)))
  {
    OrDefaultShown(sub1, DefaultLine1);
    OrDefaultShown(sub2, DefaultLine2);
  }

  // ---------------------------------------------------------------------------
  // Slider settings

  /** The settings handed to the slider (the arrow elements are markup and are not modelled). */
  datatype Settings = Settings(
    key: string, centerMode: bool, slidesToShow: nat, centerPadding: string,
    infinite: bool, autoplay: bool, autoplaySpeed: nat, speed: nat, arrows: bool,
    dots: bool, pauseOnHover: bool, swipeToSlide: bool, focusOnSelect: bool, lazyLoad: string)

  /** `settings`: one centred slide on a tablet or smaller, three otherwise. */
  function SettingsFor(isTabletDown: bool): (s: Settings)
    ensures s.slidesToShow == if isTabletDown then 1 else 3
    ensures s.centerMode == !isTabletDown && s.focusOnSelect == !isTabletDown
    ensures s.key == if isTabletDown then "one-up" else "three-up"
  {
    if isTabletDown then
      Settings("one-up", false, 1, "0px", true, true, 2600, 500, true, false, true, true, false, "ondemand")
    else
      Settings("three-up", true, 3, "0px", true, true, 2600, 500, true, false, true, true, true, "ondemand")
  }

  /**
   * The key tells the two layouts apart (so the slider is rebuilt when the
   * viewport crosses the breakpoint), and the layouts differ in nothing but
   * the key, the centring, the number of slides and focus-on-select.
   */
  lemma SettingsLayouts()
    ensures SettingsFor(true).key != SettingsFor(false).key
    ensures SettingsFor(true)
         == SettingsFor(false).(key := "one-up", centerMode := false, slidesToShow := 1, focusOnSelect := false)
  {
    assert "one-up"[0] != "three-up"[0];
  }

  // ---------------------------------------------------------------------------
  // Lightbox navigation

  /** `goNext`'s updater: no index goes to the first certificate, otherwise one forward with wrap-around. */
  function NextIndex(prev: Option<nat>): (r: Option<nat>)
    ensures r.Some?
    ensures prev.None? ==> r.value == 0
    ensures prev.Some? && prev.value + 1 < |Certificates| ==> r.value == prev.value + 1
    ensures prev.Some? && prev.value + 1 == |Certificates| ==> r.value == 0
    ensures r.value < |Certificates|
  {
    if prev.None? then Some(0) else Some((prev.value + 1) % |Certificates|)
  }

  /** `goPrev`'s updater: no index goes to the first certificate, otherwise one back with wrap-around. */
  function PrevIndex(prev: Option<nat>): (r: Option<nat>)
    ensures r.Some?
    ensures prev.None? ==> r.value == 0
    ensures prev.Some? && 0 < prev.value <= |Certificates| ==> r.value == prev.value - 1
    ensures prev.Some? && prev.value == 0 ==> r.value == |Certificates| - 1
    ensures r.value < |Certificates|
  {
    if prev.None? then Some(0) else Some((prev.value - 1 + |Certificates|) % |Certificates|)
  }

  /** On a certificate index, going back undoes going forward and going forward undoes going back. */
  lemma NextPrevInverse(k: nat)
    requires k < |Certificates|
    ensures PrevIndex(NextIndex(Some(k))) == Some(k)
    ensures NextIndex(PrevIndex(Some(k))) == Some(k)
  {
  }

  /** `NextIndex` applied `m` times. */
  function NextTimes(cur: Option<nat>, m: nat): Option<nat> {
    if m == 0 then cur else NextIndex(NextTimes(cur, m - 1))
  }

  /** Going forward `m` times from certificate `k` (m at most the count) lands `m` places on, wrapping once. */
  lemma {:induction false} NextTimesShift(k: nat, m: nat)
    requires k < |Certificates| && m <= |Certificates|
    ensures NextTimes(Some(k), m)
         == Some(if k + m < |Certificates| then k + m else k + m - |Certificates|)
  {
    if m > 0 {
      NextTimesShift(k, m - 1);
    }
  }

  /** Going forward once per certificate comes back to where it started. */
  lemma NextCycle(k: nat)
    requires k < |Certificates|
    ensures NextTimes(Some(k), |Certificates|) == Some(k)
  {
    NextTimesShift(k, |Certificates|);
  }

  /**
   * Navigation is periodic: `m + 9` steps forward land where `m` steps do.
   * With `NextTimesShift` this places the lightbox after any number of steps.
   */
  lemma {:induction false} NextTimesPeriodic(k: nat, m: nat)
    requires k < |Certificates|
    ensures NextTimes(Some(k), m + |Certificates|) == NextTimes(Some(k), m)
  {
    if m == 0 {
      NextCycle(k);
    } else {
      NextTimesPeriodic(k, m - 1);
      assert m + |Certificates| - 1 == (m - 1) + |Certificates|;
    }
  }

  /** `modalImage`: the image of the current certificate, or the empty string when there is none. */
  function ModalImage(currentIndex: Option<nat>): (r: string)
    requires currentIndex.Some? ==> currentIndex.value < |Certificates|
    ensures r == "" <==> currentIndex.None?
    ensures currentIndex.Some? ==> r == Certificates[currentIndex.value].image
  {
    if currentIndex.Some? then Certificates[currentIndex.value].image else ""
  }

  /** Different certificates show different images. */
  lemma ModalImageDistinct(i: nat, j: nat)
    requires i < |Certificates| && j < |Certificates| && i != j
    ensures ModalImage(Some(i)) != ModalImage(Some(j))
  {
    var a, b := Certificates[i].image, Certificates[j].image;
    assert |a| == |b| == 22;
    assert a[17] != b[17];
  }

  /** The lightbox state: whether the modal is open and which certificate it shows. */
  class Lightbox {
    var modalIsOpen: bool
    var currentIndex: Option<nat>

    /** The index always names a certificate. */
    ghost predicate Valid()
      reads this
    {
      currentIndex.Some? ==> currentIndex.value < |Certificates|
    }

    /** Open exactly while a certificate is selected. */
    ghost predicate Paired()
      reads this
    {
      modalIsOpen <==> currentIndex.Some?
    }

    constructor()
      ensures Valid() && Paired()
      ensures !modalIsOpen && currentIndex == None
    {
      modalIsOpen := false;
      currentIndex := None;
    }

    /** `openModal(i)`, called with the index of a certificate in the strip. */
    method OpenModal(i: nat)
      requires Valid() && i < |Certificates|
      modifies this
      ensures Valid() && Paired()
      ensures modalIsOpen && currentIndex == Some(i)
    {
      currentIndex := Some(i);
      modalIsOpen := true;
    }

    method CloseModal()
      requires Valid()
      modifies this
      ensures Valid() && Paired()
      ensures !modalIsOpen && currentIndex == None
    {
      modalIsOpen := false;
      currentIndex := None;
    }

    method GoNext()
      requires Valid()
      modifies this
      ensures Valid()
      ensures currentIndex == NextIndex(old(currentIndex))
      ensures modalIsOpen == old(modalIsOpen)
      ensures modalIsOpen ==> Paired()
    {
      currentIndex := NextIndex(currentIndex);
    }

    method GoPrev()
      requires Valid()
      modifies this
      ensures Valid()
      ensures currentIndex == PrevIndex(old(currentIndex))
      ensures modalIsOpen == old(modalIsOpen)
      ensures modalIsOpen ==> Paired()
    {
      currentIndex := PrevIndex(currentIndex);
    }

    /** The keyboard handler, installed only while the modal is open. */
    method KeyDown(key: string)
      requires Valid()
      modifies this
      ensures Valid()
      ensures !old(modalIsOpen) ==> modalIsOpen == old(modalIsOpen) && currentIndex == old(currentIndex)
      ensures old(modalIsOpen) && key == "Escape" ==> !modalIsOpen && currentIndex == None
      ensures old(modalIsOpen) && key == "ArrowRight" ==> modalIsOpen && currentIndex == NextIndex(old(currentIndex))
      ensures old(modalIsOpen) && key == "ArrowLeft" ==> modalIsOpen && currentIndex == PrevIndex(old(currentIndex))
      ensures old(modalIsOpen) && key != "Escape" && key != "ArrowRight" && key != "ArrowLeft" ==>
                modalIsOpen && currentIndex == old(currentIndex)
    {
      if !modalIsOpen {
        return;
      }
      if key == "Escape" {
        CloseModal();
      }
      if key == "ArrowRight" {
        GoNext();
      }
      if key == "ArrowLeft" {
        GoPrev();
      }
    }
  }
}
