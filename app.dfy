/**
 * The state of `BinaryGeneratorWeb` (src/app.rs) that carries meaning:
 * the text field `label` (here `labelText`), the decoded buffer `binary` and the requested
 * length `digit`, with the updates `update` applies to them each frame.
 */
module App {
  import opened Wrappers
  import opened HexCodec

  /** The label a failed random generation leaves behind. */
  const FailureMessage: string := "failed to generate random numbers."

  /** The label a fresh app starts with. */
  const DefaultLabel: string := "0FFF"

  /** The range the length slider holds `digit` in. */
  const MinDigit: nat := 1
  const MaxDigit: nat := 255

  /** The failure message is not hex, so decoding it never replaces the buffer. */
  lemma FailureMessageIsInvalid()
    ensures Decode(FailureMessage) == None
  {
  }

  /** `Slider::new(&mut digit, 1..=255)`: a requested length kept inside the range. */
  function ClampDigit(requested: int): (d: nat)
    ensures MinDigit <= d <= MaxDigit
    ensures MinDigit <= requested <= MaxDigit ==> d == requested
    ensures requested < MinDigit ==> d == MinDigit
    ensures requested > MaxDigit ==> d == MaxDigit
  {
    if requested < MinDigit then MinDigit
    else if requested > MaxDigit then MaxDigit
    else requested
  }

  class BinaryGenerator {
    /** The text field the user edits. */
    var labelText: string
    /** How many random bytes "Random Generate" produces (`u32` in the source). */
    var digit: nat
    /** The last buffer decoded or generated, if any. */
    var binary: Option<seq<byte>>

    /** The slider keeps the requested length inside its range. */
    ghost predicate Valid()
      reads this
    {
      MinDigit <= digit <= MaxDigit
    }

    /** Whenever the label decodes, the buffer is that decode. */
    ghost predicate Synced()
      reads this
    {
      Decode(labelText).Some? ==> binary == Decode(labelText)
    }

    /** `BinaryGeneratorWeb::default()`. */
    constructor ()
      ensures labelText == DefaultLabel && digit == 8 && binary == None
      ensures Valid()
    {
      labelText := DefaultLabel;
      digit := 8;
      binary := None;
    }

    /** `ui.text_edit_singleline(&mut self.label)`: the user replaces the text. */
    method EditLabel(text: string)
      modifies this`labelText
      ensures labelText == text
    {
      labelText := text;
    }

    /**
     * Decode the label and keep the result only when it is valid; `invalid`
     * is whether "Invalid input." is shown.
     */
    method RefreshBinary() returns (invalid: bool)
      modifies this`binary
      ensures invalid <==> Decode(labelText).None?
      ensures binary == if invalid then old(binary) else Decode(labelText)
      ensures Synced()
    {
      var decoded := DecodeText(labelText);
      if decoded.Some? {
        binary := Some(decoded.value);
        invalid := false;
      } else {
        invalid := true;
      }
    }

    /**
     * "Random Generate": a zeroed buffer of `digit` bytes (`vec![0; digit]`,
     * which `getrandom` overwrites) is filled from the entropy source
     * (`None` when it fails). Success shows the bytes as hex
     * and stores them; failure shows a message and keeps the old buffer.
     */
    method RandomGenerate(entropy: Option<seq<byte>>)
      requires entropy.Some? ==> |entropy.value| == digit
      modifies this`labelText, this`binary
      ensures entropy.None? ==> labelText == FailureMessage && binary == old(binary)
      ensures entropy.Some? ==> labelText == Encode(entropy.value) && binary == entropy
      ensures entropy.Some? && Valid() ==> MinDigit <= |binary.value| <= MaxDigit
      ensures Synced()
    {
      var buf: seq<byte> := seq(digit, _ => 0);
      match entropy {
        case None =>
          labelText := FailureMessage;
          FailureMessageIsInvalid();
        case Some(bytes) =>
          buf := bytes;
          labelText := Encode(buf);
          binary := Some(buf);
          DecodeEncode(buf);
      }
    }

    /** The length slider: the new `digit` is the request kept inside 1..=255. */
    method SetDigit(requested: int)
      modifies this`digit
      ensures digit == ClampDigit(requested)
      ensures Valid()
    {
      digit := ClampDigit(requested);
    }

    /**
     * One frame of `update`, in the source's order: the typed text replaces
     * the label, the label is decoded into `binary`, the generate button
     * (if clicked) runs, and the slider sets `digit` for the next frame.
     */
    method Update(typed: string, clicked: bool, entropy: Option<seq<byte>>, requested: int)
      returns (invalid: bool)
      requires clicked && entropy.Some? ==> |entropy.value| == digit
      modifies this
      ensures invalid <==> Decode(typed).None?
      ensures labelText ==
        if !clicked then typed
        else if entropy.Some? then Encode(entropy.value)
        else FailureMessage
      ensures binary ==
        if clicked && entropy.Some? then entropy
        else if invalid then old(binary)
        else Decode(typed)
      ensures digit == ClampDigit(requested) && Valid()
      ensures Synced()
    {
      EditLabel(typed);
      invalid := RefreshBinary();
      if clicked {
        RandomGenerate(entropy);
      }
      SetDigit(requested);
    }
  }
}
