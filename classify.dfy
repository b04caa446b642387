/**
 * Classification of an archive entry by its name (CompressCBZ.py:38-43):
 * an ordered chain of case-sensitive suffix tests, JPEG first, then PNG,
 * everything else unsupported.
 */
module Classification {
  import opened PySlice

  datatype ImageKind = Jpeg | Png | Unsupported

  /**
   * The tests exactly as written. The second JPEG test compares the last FIVE
   * characters with the FOUR-character string "jpeg", which only the bare
   * name "jpeg" can satisfy.
   */
  function ClassifyAsWritten(name: string): ImageKind
  {
    if LastN(name, 4) == ".jpg" || LastN(name, 5) == "jpeg" then Jpeg
    else if LastN(name, 4) == ".png" then Png
    else Unsupported
  }

  /** What the tests as written accept, stated as plain suffix conditions. */
  lemma AsWrittenCases(name: string)
    ensures ClassifyAsWritten(name) == Jpeg <==> EndsWith(name, ".jpg") || name == "jpeg"
    ensures ClassifyAsWritten(name) == Png <==> EndsWith(name, ".png")
    ensures ClassifyAsWritten(name) == Unsupported <==>
              !EndsWith(name, ".jpg") && name != "jpeg" && !EndsWith(name, ".png")
  {
    LastNMatchIff(name, ".jpg");
    LastNMatchIff(name, ".png");
    LastNLongerThanTarget(name, 5, "jpeg");
    if EndsWith(name, ".png") {
      assert name[|name| - 1] == 'g' && name[|name| - 2] == 'n';
    }
  }

  /** Every name with the `.jpeg` extension is left unsupported by the tests as written. */
  lemma AsWrittenMissesDotJpeg(stem: string)
    ensures ClassifyAsWritten(stem + ".jpeg") == Unsupported
  {
    var name := stem + ".jpeg";
    AsWrittenCases(name);
    assert name[|name| - 1] == 'g' && name[|name| - 2] == 'e';
    assert name != "jpeg" by {
      assert |name| >= 5;
    }
  }

  /**
   * The evidently intended classification: a case-sensitive test for the
   * extensions ".jpg" or ".jpeg", then ".png".
   */
  function Classify(name: string): ImageKind
  {
    if EndsWith(name, ".jpg") || EndsWith(name, ".jpeg") then Jpeg
    else if EndsWith(name, ".png") then Png
    else Unsupported
  }

  /**
   * The intended classification is the code's chain of slice tests with the
   * single fix of comparing the five-character slice with ".jpeg"; its three
   * outcomes are the three disjoint suffix cases.
   */
  lemma ClassifyCases(name: string)
    ensures Classify(name) == Jpeg <==> LastN(name, 4) == ".jpg" || LastN(name, 5) == ".jpeg"
    ensures Classify(name) == Png <==>
              LastN(name, 4) != ".jpg" && LastN(name, 5) != ".jpeg" && LastN(name, 4) == ".png"
    ensures Classify(name) == Png <==> EndsWith(name, ".png")
    ensures Classify(name) == Unsupported <==>
              !EndsWith(name, ".jpg") && !EndsWith(name, ".jpeg") && !EndsWith(name, ".png")
  {
    LastNMatchIff(name, ".jpg");
    LastNMatchIff(name, ".jpeg");
    LastNMatchIff(name, ".png");
    if EndsWith(name, ".png") {
      assert name[|name| - 1] == 'g' && name[|name| - 2] == 'n';
    }
  }

  /**
   * The correction changes the verdict for exactly two kinds of name: those
   * ending in ".jpeg" (now JPEG, previously unsupported) and the bare name
   * "jpeg" (now unsupported, previously JPEG). PNG handling is untouched.
   */
  lemma CorrectionScope(name: string)
    ensures Classify(name) != ClassifyAsWritten(name) <==> EndsWith(name, ".jpeg") || name == "jpeg"
    ensures EndsWith(name, ".jpeg") ==> ClassifyAsWritten(name) == Unsupported && Classify(name) == Jpeg
    ensures name == "jpeg" ==> ClassifyAsWritten(name) == Jpeg && Classify(name) == Unsupported
  {
    AsWrittenCases(name);
    ClassifyCases(name);
    if EndsWith(name, ".jpeg") {
      AsWrittenMissesDotJpeg(name[..|name| - 5]);
      assert name[..|name| - 5] + ".jpeg" == name;
    }
    if name == "jpeg" {
      assert !EndsWith(name, ".jpg");
    }
  }

  /** The kinds of three typical archive member names. */
  lemma ExampleKinds()
    ensures Classify("page1.jpg") == Jpeg
    ensures Classify("page2.png") == Png
    ensures Classify("notes.txt") == Unsupported
    ensures ClassifyAsWritten("page1.jpg") == Jpeg
    ensures ClassifyAsWritten("page2.png") == Png
    ensures ClassifyAsWritten("notes.txt") == Unsupported
  {
    assert EndsWith("page1.jpg", ".jpg");
    assert EndsWith("page2.png", ".png") && !EndsWith("page2.png", ".jpg") by {
      assert "page2.png"[6] != ".jpg"[1];
    }
    assert !EndsWith("page2.png", ".jpeg") by {
      assert "page2.png"[5] != ".jpeg"[1];
    }
    assert !EndsWith("notes.txt", ".jpg") by {
      assert "notes.txt"[8] != ".jpg"[3];
    }
    assert !EndsWith("notes.txt", ".png") by {
      assert "notes.txt"[8] != ".png"[3];
    }
    assert !EndsWith("notes.txt", ".jpeg") by {
      assert "notes.txt"[8] != ".jpeg"[4];
    }
    AsWrittenCases("page1.jpg");
    AsWrittenCases("page2.png");
    AsWrittenCases("notes.txt");
  }
}
