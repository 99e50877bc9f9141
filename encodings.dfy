/**
 * The fixed table of target encodings that the window offers in its combo box
 * (`InitializeComboBox`). Each entry is the framework encoding object the
 * source constructs, written as the constructor and arguments it is built with;
 * the codecs themselves are not modelled.
 */
module Encodings {

  /** The four kinds of framework encoding object built by the table. */
  datatype Encoding =
    | UTF8Encoding(encoderShouldEmitUTF8Identifier: bool)
    | UnicodeEncoding(bigEndian: bool, byteOrderMark: bool)
    | UTF32Encoding(bigEndian: bool, byteOrderMark: bool)
    | CodePageEncoding(codePage: nat)

  /** One item of the combo box: the name shown and the encoding it selects. */
  datatype EncodingComboBoxItem = EncodingComboBoxItem(name: string, encoding: Encoding)

  const EncodingTable: seq<EncodingComboBoxItem> := [
    EncodingComboBoxItem("UTF-8 With Bom", UTF8Encoding(true)),
    EncodingComboBoxItem("UTF-8", UTF8Encoding(false)),
    EncodingComboBoxItem("UTF-16LE", UnicodeEncoding(false, true)),
    EncodingComboBoxItem("UTF-16BE", UnicodeEncoding(true, true)),
    EncodingComboBoxItem("UTF-32LE", UTF32Encoding(false, true)),
    EncodingComboBoxItem("UTF-32BE", UTF32Encoding(true, true)),
    EncodingComboBoxItem("CP949", CodePageEncoding(949)),
    EncodingComboBoxItem("EUC-KR", CodePageEncoding(51949))
  ]

  /** The combo box selection made when the window is built. */
  const DefaultIndex: nat := 0

  /**
   * Whether the entry is built to write a byte-order mark (signature). This
   * and SignatureEntries only document the constructor arguments of the
   * table; the rest of the model treats an encoding as an opaque tag.
   */
  predicate WritesSignature(e: Encoding) {
    match e
    case UTF8Encoding(identifier) => identifier
    case UnicodeEncoding(_, bom) => bom
    case UTF32Encoding(_, bom) => bom
    case CodePageEncoding(_) => false
  }

  /**
   * The table has eight entries, the default selection is a valid index naming
   * UTF-8 with a signature, and no two entries share a name or an encoding, so
   * the name shown identifies the encoding written.
   */
  lemma TableIsABijection()
    ensures |EncodingTable| == 8
    ensures DefaultIndex < |EncodingTable|
    ensures EncodingTable[DefaultIndex] == EncodingComboBoxItem("UTF-8 With Bom", UTF8Encoding(true))
    ensures forall i, j :: 0 <= i < j < |EncodingTable| ==> EncodingTable[i].name != EncodingTable[j].name
    ensures forall i, j :: 0 <= i < j < |EncodingTable| ==> EncodingTable[i].encoding != EncodingTable[j].encoding
  {
  }

  /**
   * The entries that write a signature are exactly the UTF-8 "With Bom" entry
   * and the four UTF-16/UTF-32 entries; plain UTF-8 and the two Korean code
   * pages write none.
   */
  lemma SignatureEntries(i: nat)
    requires i < |EncodingTable|
    ensures WritesSignature(EncodingTable[i].encoding) <==> i in {0, 2, 3, 4, 5}
  {
  }
}
