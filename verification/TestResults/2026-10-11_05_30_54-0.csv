TestResult.DisplayName,TestResult.Outcome,TestResult.Duration,TestResult.ResourceCount,RandomSeed
Lifecycle.LinkedEntries (well-formedness),Passed,00:00:00.5219043,247679,0
Lifecycle.LinkedEntries (correctness),Passed,00:00:00.3367492,361545,0
